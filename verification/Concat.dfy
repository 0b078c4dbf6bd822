/** Concatenation of two finite-state machines in place, by merging states where that is safe and by
    an epsilon arc where it is not. */
module Concat {
  import opened Hypergraph
  import opened StateOrder
  import opened GraphPaths
  import opened SplitArc
  import opened ReachCounting
  import opened ForwardSearch
  import opened Empty
  import opened FsmEmpty

  /** A finite-state machine that has a start and a final state. */
  ghost predicate IsFsm(h: HG<int>, n: nat) {
    FsmShape(h, n) && h.start.Some? && h.final.Some?
  }

  /** What a path reads; epsilon is silent. */
  ghost function Word(h: HG<int>, p: seq<nat>): seq<Sym> {
    if p == [] then [] else Reading(h, p[0]) + Word(h, p[1..])
  }

  ghost function Reading(h: HG<int>, a: nat): seq<Sym> {
    if a < |h.arcs| && |h.arcs[a].tails| == 2 && h.arcs[a].tails[1] in h.labels
        && h.labels[h.arcs[a].tails[1]] != EPSILON
    then [h.labels[h.arcs[a].tails[1]]] else []
  }

  lemma {:induction false} WordAppend(h: HG<int>, p: seq<nat>, q: seq<nat>)
    ensures Word(h, p + q) == Word(h, p) + Word(h, q) && Weight(h, p + q) == Weight(h, p) + Weight(h, q)
  {
    if p == [] {
      assert p + q == q;
    } else {
      assert (p + q)[1..] == p[1..] + q;
      WordAppend(h, p[1..], q);
    }
  }

  ghost predicate NoOutArcs(h: HG<int>, s: State) {
    forall a :: 0 <= a < |h.arcs| && |h.arcs[a].tails| > 0 ==> h.arcs[a].tails[0] != s
  }

  ghost predicate NoInArcs(h: HG<int>, s: State) {
    forall a :: 0 <= a < |h.arcs| ==> h.arcs[a].head != s
  }

  ghost predicate Known(f: map<State, State>, arc: Arc<int>) {
    arc.head in f && forall k :: 0 <= k < |arc.tails| ==> arc.tails[k] in f
  }

  ghost function Mapped(f: map<State, State>, arc: Arc<int>): Arc<int>
    requires Known(f, arc)
  {
    Arc(f[arc.head], seq(|arc.tails|, k requires 0 <= k < |arc.tails| => f[arc.tails[k]]), arc.weight)
  }

  // ----- Two machines, one after the other -----

  /** `f` takes the states of `r` to different ones, past the `n` states of `l` except that the start
      state may go to `lf`. */
  ghost predicate Renames(f: map<State, State>, n: nat, rs: State, lf: State) {
    && rs in f && (f[rs] == lf || n <= f[rs])
    && (forall s :: s in f && s != rs ==> n <= f[s])
    && (forall s, t :: s in f && t in f && f[s] == f[t] ==> s == t)
  }

  /** Where the left machine's final state and the right machine's start state become one, it has not
      both arcs that lead on in the left machine and arcs that come back to it in the right one. */
  ghost predicate SafeMerge(l: HG<int>, r: HG<int>)
    requires l.final.Some? && r.start.Some?
  {
    NoOutArcs(l, l.final.value) || NoInArcs(r, r.start.value)
  }

  /** Glued together, merged only where that is safe. */
  ghost predicate Joined(l: HG<int>, n: nat, r: HG<int>, res: HG<int>, f: map<State, State>, off: nat) {
    Glued(l, n, r, res, f, off) && (f[r.start.value] == l.final.value ==> SafeMerge(l, r))
  }

  /** `res` has the arcs of `l`, then the epsilon arc unless the states are merged, then those of `r`. */
  ghost predicate Glued(l: HG<int>, n: nat, r: HG<int>, res: HG<int>, f: map<State, State>, off: nat) {
    && l.start.Some? && l.final.Some? && r.start.Some? && r.final.Some? && l.final.value < n
    && Renames(f, n, r.start.value, l.final.value) && r.final.value in f
    && res.start == l.start && res.final == Some(f[r.final.value])
    && off == (if f[r.start.value] == l.final.value then |l.arcs| else |l.arcs| + 1)
    && |res.arcs| == off + |r.arcs| && res.arcs[..|l.arcs|] == l.arcs
    && (off > |l.arcs| ==> IsEpsilonArc(res, |l.arcs|, l.final.value, f[r.start.value]))
    && (forall a :: 0 <= a < |r.arcs| ==> Known(f, r.arcs[a]) && res.arcs[off + a] == Mapped(f, r.arcs[a]))
    && (forall s :: s in l.labels ==> s in res.labels && res.labels[s] == l.labels[s])
    && (forall s :: s in r.labels && s in f ==> f[s] in res.labels && res.labels[f[s]] == r.labels[s])
  }

  ghost predicate IsEpsilonArc(h: HG<int>, a: nat, s: State, t: State) {
    && a < |h.arcs| && h.arcs[a].head == t && |h.arcs[a].tails| == 2 && h.arcs[a].tails[0] == s && h.arcs[a].weight == 0
    && h.arcs[a].tails[1] in h.labels && h.labels[h.arcs[a].tails[1]] == EPSILON
  }

  ghost function Shift(q: seq<nat>, off: nat): seq<nat> {
    seq(|q|, k requires 0 <= k < |q| => q[k] + off)
  }

  /** The epsilon arc on the way from one machine to the other, if there is one. */
  ghost function Bridge(l: HG<int>, off: nat): seq<nat> {
    if off > |l.arcs| then [|l.arcs|] else []
  }

  /** A path of `l` is one of the result, with its word and weight. */
  lemma {:induction false} LeftPath(l: HG<int>, n: nat, r: HG<int>, res: HG<int>, f: map<State, State>, off: nat,
                                    s: State, p: seq<nat>, t: State)
    requires IsFsm(l, n) && Glued(l, n, r, res, f, off) && Path(l, s, p, t)
    ensures Path(res, s, p, t) && Word(res, p) == Word(l, p) && Weight(res, p) == Weight(l, p)
    decreases |p|
  {
    if p != [] {
      assert res.arcs[p[0]] == res.arcs[..|l.arcs|][p[0]];
      LeftPath(l, n, r, res, f, off, l.arcs[p[0]].head, p[1..], t);
    }
  }

  lemma ShiftFirst(q: seq<nat>, off: nat)
    requires q != []
    ensures Shift(q, off)[0] == q[0] + off && Shift(q, off)[1..] == Shift(q[1..], off)
  {
  }

  /** So is a path of `r`, with its arcs' numbers shifted. */
  lemma {:induction false} RightPath(l: HG<int>, n: nat, r: HG<int>, m: nat, res: HG<int>, f: map<State, State>,
                                     off: nat, s: State, q: seq<nat>, t: State)
    requires IsFsm(r, m) && Glued(l, n, r, res, f, off) && s in f && t in f && Path(r, s, q, t)
    ensures Path(res, f[s], Shift(q, off), f[t]) && Word(res, Shift(q, off)) == Word(r, q)
    ensures Weight(res, Shift(q, off)) == Weight(r, q)
    decreases |q|
  {
    if q != [] {
      assert Known(f, r.arcs[q[0]]) && res.arcs[off + q[0]] == Mapped(f, r.arcs[q[0]]);
      ShiftFirst(q, off);
      assert r.arcs[q[0]].tails[1] in r.labels;
      RightPath(l, n, r, m, res, f, off, r.arcs[q[0]].head, q[1..], t);
    }
  }

  /** In the part of `r` for good: no way back into the part of `l`. */
  ghost predicate ForGood(l: HG<int>, r: HG<int>, f: map<State, State>, s: State)
    requires l.final.Some? && r.start.Some? && r.start.value in f
  {
    f[r.start.value] == l.final.value ==>
      NoOutArcs(l, l.final.value) || (s != r.start.value && NoInArcs(r, r.start.value))
  }

  /** Any path on from there is a path of `r`. */
  lemma {:induction false} StaysRight(l: HG<int>, n: nat, r: HG<int>, m: nat, res: HG<int>, f: map<State, State>,
                                      off: nat, s: State, p: seq<nat>)
    returns (q: seq<nat>)
    requires IsFsm(l, n) && IsFsm(r, m) && Joined(l, n, r, res, f, off) && s in f && ForGood(l, r, f, s)
    requires Path(res, f[s], p, f[r.final.value])
    ensures p == Shift(q, off) && Path(r, s, q, r.final.value)
    decreases |p|
  {
    if p == [] {
      q := [];
    } else {
      var a := p[0] - off;
      var rest := StaysRight(l, n, r, m, res, f, off, r.arcs[a].head, p[1..]);
      q := [a] + rest;
      assert q[1..] == rest;
      ShiftFirst(q, off);
      assert p == [p[0]] + p[1..];
    }
  }

  /** `p` is an accepting path of `l`, the bridge, and an accepting path of `r`. */
  ghost predicate Splits(l: HG<int>, r: HG<int>, off: nat, s: State, p: seq<nat>, u: seq<nat>, q: seq<nat>)
    requires l.final.Some? && r.start.Some? && r.final.Some?
  {
    p == u + Bridge(l, off) + Shift(q, off) && Path(l, s, u, l.final.value) && Path(r, r.start.value, q, r.final.value)
  }

  lemma SplitsHere(l: HG<int>, r: HG<int>, off: nat, p: seq<nat>, q: seq<nat>)
    requires l.final.Some? && r.start.Some? && r.final.Some? && Path(r, r.start.value, q, r.final.value)
    requires p == Bridge(l, off) + Shift(q, off)
    ensures Splits(l, r, off, l.final.value, p, [], q)
  {
    assert [] + Bridge(l, off) == Bridge(l, off);
  }

  /** A path of the result from a state of `l` crosses over once. */
  lemma {:induction false} Crosses(l: HG<int>, n: nat, r: HG<int>, m: nat, res: HG<int>, f: map<State, State>, off: nat,
                                   s: State, p: seq<nat>)
    returns (u: seq<nat>, q: seq<nat>)
    requires IsFsm(l, n) && IsFsm(r, m) && Joined(l, n, r, res, f, off) && s < n
    requires Path(res, s, p, f[r.final.value])
    ensures Splits(l, r, off, s, p, u, q)
    decreases |p|
  {
    if p == [] {
      u, q := [], [];
    } else {
      if p[0] < |l.arcs| {
        var u';
        u', q := Crosses(l, n, r, m, res, f, off, l.arcs[p[0]].head, p[1..]);
        u := [p[0]] + u';
      } else {
        u := [];
        q := CrossesHere(l, n, r, m, res, f, off, s, p);
      }
    }
  }

  lemma CrossesHere(l: HG<int>, n: nat, r: HG<int>, m: nat, res: HG<int>, f: map<State, State>, off: nat, s: State,
                    p: seq<nat>) returns (q: seq<nat>)
    requires IsFsm(l, n) && IsFsm(r, m) && Joined(l, n, r, res, f, off) && s < n
    requires Path(res, s, p, f[r.final.value]) && p != [] && p[0] >= |l.arcs|
    ensures Splits(l, r, off, s, p, [], q)
  {
    assert p == [p[0]] + p[1..];
    if p[0] < off {
      q := StaysRight(l, n, r, m, res, f, off, r.start.value, p[1..]);
    } else {
      var a := p[0] - off;
      assert r.arcs[a].tails[0] == r.start.value;
      var rest := StaysRight(l, n, r, m, res, f, off, r.arcs[a].head, p[1..]);
      q := [a] + rest;
      assert q[1..] == rest;
      ShiftFirst(q, off);
      assert Bridge(l, off) + Shift(q, off) == Shift(q, off);
    }
    SplitsHere(l, r, off, p, q);
  }

  /** The accepting paths of the result are the accepting paths of the left machine, the bridge, and
      those of the right machine; what they read and weigh is put together. */
  lemma JoinedPaths(l: HG<int>, n: nat, r: HG<int>, m: nat, res: HG<int>, f: map<State, State>, off: nat, p: seq<nat>)
    requires IsFsm(l, n) && IsFsm(r, m) && Joined(l, n, r, res, f, off)
    ensures Path(res, l.start.value, p, res.final.value) <==> exists u, q :: Splits(l, r, off, l.start.value, p, u, q)
    ensures forall u, q :: Splits(l, r, off, l.start.value, p, u, q) ==>
              Word(res, p) == Word(l, u) + Word(r, q) && Weight(res, p) == Weight(l, u) + Weight(r, q)
  {
    if Path(res, l.start.value, p, res.final.value) {
      var u, q := Crosses(l, n, r, m, res, f, off, l.start.value, p);
    }
    forall u, q | Splits(l, r, off, l.start.value, p, u, q)
      ensures Path(res, l.start.value, p, res.final.value)
      ensures Word(res, p) == Word(l, u) + Word(r, q) && Weight(res, p) == Weight(l, u) + Weight(r, q)
    {
      PutTogether(l, n, r, m, res, f, off, u, q);
    }
  }

  lemma {:induction false} PathsMeet(h: HG<int>, s: State, p: seq<nat>, t: State, q: seq<nat>, v: State)
    requires Path(h, s, p, t) && Path(h, t, q, v)
    ensures Path(h, s, p + q, v)
    decreases |p|
  {
    if p == [] {
      assert p + q == q;
    } else {
      assert (p + q)[1..] == p[1..] + q;
      PathsMeet(h, h.arcs[p[0]].head, p[1..], t, q, v);
    }
  }

  lemma PutTogether(l: HG<int>, n: nat, r: HG<int>, m: nat, res: HG<int>, f: map<State, State>, off: nat, u: seq<nat>,
                    q: seq<nat>)
    requires IsFsm(l, n) && IsFsm(r, m) && Joined(l, n, r, res, f, off)
    requires Path(l, l.start.value, u, l.final.value) && Path(r, r.start.value, q, r.final.value)
    ensures var p := u + Bridge(l, off) + Shift(q, off);
            && Path(res, l.start.value, p, res.final.value)
            && Word(res, p) == Word(l, u) + Word(r, q) && Weight(res, p) == Weight(l, u) + Weight(r, q)
  {
    hide Chain, Word, Weight, Shift, Bridge;
    var lf, rs := l.final.value, r.start.value;
    LeftPath(l, n, r, res, f, off, l.start.value, u, lf);
    RightPath(l, n, r, m, res, f, off, rs, q, r.final.value);
    BridgePath(l, n, r, res, f, off);
    PathsMeet(res, l.start.value, u, lf, Bridge(l, off), f[rs]);
    PathsMeet(res, l.start.value, u + Bridge(l, off), f[rs], Shift(q, off), res.final.value);
    WordAppend(res, u, Bridge(l, off));
    WordAppend(res, u + Bridge(l, off), Shift(q, off));
  }

  lemma BridgePath(l: HG<int>, n: nat, r: HG<int>, res: HG<int>, f: map<State, State>, off: nat)
    requires Joined(l, n, r, res, f, off)
    ensures Path(res, l.final.value, Bridge(l, off), f[r.start.value]) && Word(res, Bridge(l, off)) == []
    ensures Weight(res, Bridge(l, off)) == 0
  {
    if off > |l.arcs| {
      assert Bridge(l, off)[1..] == [];
      assert Chain(res, ToHead, f[r.start.value], Bridge(l, off)[1..], f[r.start.value]);
    }
  }

  lemma {:induction false} PathArcs(h: HG<int>, s: State, p: seq<nat>, t: State)
    requires Path(h, s, p, t)
    ensures forall k :: 0 <= k < |p| ==> p[k] < |h.arcs|
    decreases |p|
  {
    if p != [] { PathArcs(h, h.arcs[p[0]].head, p[1..], t); }
  }

  /** Where the right part of a split path begins. */
  lemma SplitAt(l: HG<int>, r: HG<int>, off: nat, s: State, p: seq<nat>, u: seq<nat>, q: seq<nat>)
    requires l.final.Some? && r.start.Some? && r.final.Some? && |l.arcs| <= off && Splits(l, r, off, s, p, u, q)
    ensures |u| <= |p| && u == p[..|u|] && |p| == |u| + |Bridge(l, off)| + |q|
    ensures forall k :: 0 <= k < |p| ==> (p[k] < |l.arcs| <==> k < |u|)
    ensures Shift(q, off) == p[|u| + |Bridge(l, off)|..]
  {
    PathArcs(l, s, u, l.final.value);
  }

  lemma ShiftInjective(q: seq<nat>, q': seq<nat>, off: nat)
    requires Shift(q, off) == Shift(q', off)
    ensures q == q'
  {
    assert |q| == |Shift(q, off)| == |q'|;
    forall k | 0 <= k < |q| ensures q[k] == q'[k] {
      assert Shift(q, off)[k] == Shift(q', off)[k];
    }
  }

  /** A path splits in one way only, so paths are not just added up but matched one to one. */
  lemma SplitsOnce(l: HG<int>, r: HG<int>, off: nat, s: State, p: seq<nat>, u: seq<nat>, q: seq<nat>, u': seq<nat>,
                   q': seq<nat>)
    requires l.final.Some? && r.start.Some? && r.final.Some? && |l.arcs| <= off
    requires Splits(l, r, off, s, p, u, q) && Splits(l, r, off, s, p, u', q')
    ensures u == u' && q == q'
  {
    SplitAt(l, r, off, s, p, u, q);
    SplitAt(l, r, off, s, p, u', q');
    hide *;
    assert |u| < |p| ==> p[|u|] >= |l.arcs|;
    assert |u'| < |p| ==> p[|u'|] >= |l.arcs|;
    ShiftInjective(q, q', off);
  }

  /** Merging regardless is wrong as soon as the arcs that speak against it can be used: with a way from
      `a`, out of the final state, back to it and a way from the start state to `b`, into it, the result
      has an accepting path that is none of the wanted ones. */
  lemma UnsafeMergeAddsPaths(l: HG<int>, n: nat, r: HG<int>, m: nat, res: HG<int>, f: map<State, State>,
                             a: nat, b: nat, u: seq<nat>, x: seq<nat>, y: seq<nat>, q: seq<nat>) returns (p: seq<nat>)
    requires IsFsm(l, n) && IsFsm(r, m) && Glued(l, n, r, res, f, |l.arcs|)
    requires Path(l, l.start.value, u, l.final.value) && Path(r, r.start.value, q, r.final.value)
    requires a < |l.arcs| && l.arcs[a].tails[0] == l.final.value && Path(l, l.arcs[a].head, x, l.final.value)
    requires b < |r.arcs| && r.arcs[b].head == r.start.value && Path(r, r.start.value, y, r.arcs[b].tails[0])
    ensures Path(res, l.start.value, p, res.final.value)
    ensures forall u', q' :: !Splits(l, r, |l.arcs|, l.start.value, p, u', q')
  {
    var lf, rs, off := l.final.value, r.start.value, |l.arcs|;
    ChainAppend(r, ToHead, rs, y, r.arcs[b].tails[0], b);
    assert Path(l, lf, [a] + x, lf) by { assert ([a] + x)[0] == a && ([a] + x)[1..] == x; }
    hide Splits, Chain, Glued, Word, Weight;
    LeftPath(l, n, r, res, f, off, l.start.value, u, lf);
    LeftPath(l, n, r, res, f, off, lf, [a] + x, lf);
    RightPath(l, n, r, m, res, f, off, rs, y + [b], rs);
    RightPath(l, n, r, m, res, f, off, rs, q, r.final.value);
    p := FourPaths(res, l.start.value, u, lf, Shift(y + [b], off), [a] + x, Shift(q, off), res.final.value);
    var k := |u| + |y|;
    hide Chain, IsFsm, Glued;
    assert p[k] == b + off && p[k + 1] == a;
    BackAgain(l, r, l.start.value, p, k);
  }

  lemma FourPaths(h: HG<int>, s: State, u: seq<nat>, t: State, x: seq<nat>, y: seq<nat>, q: seq<nat>, v: State)
    returns (p: seq<nat>)
    requires Path(h, s, u, t) && Path(h, t, x, t) && Path(h, t, y, t) && Path(h, t, q, v)
    ensures p == u + x + y + q && Path(h, s, p, v)
  {
    hide Chain;
    PathsMeet(h, s, u, t, x, t);
    PathsMeet(h, s, u + x, t, y, t);
    PathsMeet(h, s, u + x + y, t, q, v);
    p := u + x + y + q;
  }

  /** An arc of `r` with an arc of `l` after it: no split. */
  lemma BackAgain(l: HG<int>, r: HG<int>, s: State, p: seq<nat>, k: nat)
    requires l.final.Some? && r.start.Some? && r.final.Some? && k + 1 < |p| && p[k] >= |l.arcs| && p[k + 1] < |l.arcs|
    ensures forall u, q :: !Splits(l, r, |l.arcs|, s, p, u, q)
  {
    forall u, q | Splits(l, r, |l.arcs|, s, p, u, q) ensures false {
      SplitAt(l, r, |l.arcs|, s, p, u, q);
    }
  }

  /** The machine accepts `w` at cost `c` by some path. */
  ghost predicate Accepts(h: HG<int>, w: seq<Sym>, c: int) {
    && h.start.Some? && h.final.Some?
    && exists p :: Path(h, h.start.value, p, h.final.value) && Word(h, p) == w && Weight(h, p) == c
  }

  ghost predicate AcceptsInTwo(l: HG<int>, r: HG<int>, w: seq<Sym>, c: int, v: seq<Sym>, d: int, x: seq<Sym>, e: int) {
    w == v + x && c == d + e && Accepts(l, v, d) && Accepts(r, x, e)
  }

  ghost predicate Concatenates(l: HG<int>, r: HG<int>, res: HG<int>) {
    forall w, c :: Accepts(res, w, c) <==> exists v, d, x, e :: AcceptsInTwo(l, r, w, c, v, d, x, e)
  }

  lemma JoinedConcatenates(l: HG<int>, n: nat, r: HG<int>, m: nat, res: HG<int>, f: map<State, State>, off: nat)
    requires IsFsm(l, n) && IsFsm(r, m) && Joined(l, n, r, res, f, off)
    ensures Concatenates(l, r, res)
  {
    hide Joined, IsFsm, Chain, Word, Weight, Splits;
    ResultEnds(l, n, r, m, res, f, off);
    forall w, c ensures Accepts(res, w, c) <==> exists v, d, x, e :: AcceptsInTwo(l, r, w, c, v, d, x, e) {
      if Accepts(res, w, c) {
        var p :| Path(res, res.start.value, p, res.final.value) && Word(res, p) == w && Weight(res, p) == c;
        JoinedPaths(l, n, r, m, res, f, off, p);
        var u, q :| Splits(l, r, off, l.start.value, p, u, q);
        TakeApart(l, r, off, p, u, q);
        assert AcceptsInTwo(l, r, w, c, Word(l, u), Weight(l, u), Word(r, q), Weight(r, q));
      }
      forall v, d, x, e | AcceptsInTwo(l, r, w, c, v, d, x, e) ensures Accepts(res, w, c) {
        var u :| Path(l, l.start.value, u, l.final.value) && Word(l, u) == v && Weight(l, u) == d;
        var q :| Path(r, r.start.value, q, r.final.value) && Word(r, q) == x && Weight(r, q) == e;
        PutTogether(l, n, r, m, res, f, off, u, q);
      }
    }
  }

  lemma ResultEnds(l: HG<int>, n: nat, r: HG<int>, m: nat, res: HG<int>, f: map<State, State>, off: nat)
    requires IsFsm(l, n) && IsFsm(r, m) && Joined(l, n, r, res, f, off)
    ensures l.start.Some? && l.final.Some? && r.start.Some? && r.final.Some? && res.start == l.start && res.final.Some?
  {
  }

  lemma TakeApart(l: HG<int>, r: HG<int>, off: nat, p: seq<nat>, u: seq<nat>, q: seq<nat>)
    requires l.start.Some? && l.final.Some? && r.start.Some? && r.final.Some?
    requires Splits(l, r, off, l.start.value, p, u, q)
    ensures Accepts(l, Word(l, u), Weight(l, u)) && Accepts(r, Word(r, q), Weight(r, q))
  {
  }

  // ----- The program -----

  /** What the renaming keeps: fresh names for the states of `r` met so far, none of them `taken`. */
  ghost predicate Renaming(f: map<State, State>, n0: nat, n: nat, rs: State, lf: State, taken: set<State>) {
    && n0 <= n && lf < n0 && rs in f && Renames(f, n0, rs, lf)
    && (forall s :: s in f ==> f[s] < n && f[s] !in taken)
    && (forall s :: s in taken ==> s < n)
  }

  ghost predicate Extends(f: map<State, State>, f': map<State, State>) {
    forall s :: s in f ==> s in f' && f'[s] == f[s]
  }

  /** Looking up a state keeps that. */
  lemma RenamingKept(f: map<State, State>, n: nat, f': map<State, State>, n': nat, n0: nat, rs: State, lf: State,
                     taken: set<State>, s: State)
    requires Renaming(f, n0, n, rs, lf, taken)
    requires if s in f then f' == f && n' == n else f' == f[s := n] && n' == n + 1
    ensures Renaming(f', n0, n', rs, lf, taken) && Extends(f, f')
  {
  }

  lemma ExtendsFurther(f: map<State, State>, f': map<State, State>, f'': map<State, State>)
    requires Extends(f, f') && Extends(f', f'')
    ensures Extends(f, f'')
  {
  }

  lemma StillMapped(f: map<State, State>, f': map<State, State>, arc: Arc<int>)
    requires Known(f, arc) && Extends(f, f')
    ensures Known(f', arc) && Mapped(f', arc) == Mapped(f, arc)
  {
  }

  lemma LabelsInside(h: HG<int>, n: nat)
    requires Inside(h, n)
    ensures forall s :: s in h.labels ==> s < n
  {
  }

  /** The arcs of `l1` and then copies of the first `k` arcs of `r`. */
  ghost predicate Copied(l1: HG<int>, l2: HG<int>, r: HG<int>, k: nat, f: map<State, State>) {
    && l2 == l1.(arcs := l2.arcs) && k <= |r.arcs| && |l2.arcs| == |l1.arcs| + k && l2.arcs[..|l1.arcs|] == l1.arcs
    && forall a :: 0 <= a < k ==> Known(f, r.arcs[a]) && l2.arcs[|l1.arcs| + a] == Mapped(f, r.arcs[a])
  }

  /** The labels of `r` are given to its states' names; those of old and `taken` states are as they were. */
  ghost predicate Relabelled(l2: HG<int>, l3: HG<int>, r: HG<int>, f: map<State, State>, n0: nat, taken: set<State>) {
    && l3 == l2.(labels := l3.labels)
    && (forall s :: s in r.labels ==> s in f && f[s] in l3.labels && l3.labels[f[s]] == r.labels[s])
    && KeptLabels(l2.labels, l3.labels, n0, taken)
  }

  /** The labelled states of `r` below `s` have their labels. */
  ghost predicate Labelled(r: HG<int>, s: State, f: map<State, State>, labels: map<State, Sym>) {
    forall t :: t in r.labels && t < s ==> t in f && f[t] in labels && labels[f[t]] == r.labels[t]
  }

  /** The labels of old states and of `taken` ones are as they were. */
  ghost predicate KeptLabels(labels0: map<State, Sym>, labels: map<State, Sym>, n0: nat, taken: set<State>) {
    forall t :: t in labels0 && (t < n0 || t in taken) ==> t in labels && labels[t] == labels0[t]
  }

  lemma LabelsBegin(r: HG<int>, f: map<State, State>, labels: map<State, Sym>, n0: nat, taken: set<State>)
    ensures Labelled(r, 0, f, labels) && KeptLabels(labels, labels, n0, taken) && Extends(f, f)
  {
  }

  lemma NoLabel(r: HG<int>, s: State, f: map<State, State>, labels: map<State, Sym>)
    requires Labelled(r, s, f, labels) && s !in r.labels
    ensures Labelled(r, s + 1, f, labels)
  {
  }

  /** One more label, on a state that is nobody else's. */
  lemma LabelOne(r: HG<int>, s: State, f: map<State, State>, f': map<State, State>, labels0: map<State, Sym>,
                 labels: map<State, Sym>, n0: nat, n: nat, rs: State, lf: State, taken: set<State>)
    requires Labelled(r, s, f, labels) && KeptLabels(labels0, labels, n0, taken) && Extends(f, f')
    requires Renaming(f', n0, n, rs, lf, taken) && s in r.labels && s != rs && s in f'
    ensures Labelled(r, s + 1, f', labels[f'[s] := r.labels[s]])
    ensures KeptLabels(labels0, labels[f'[s] := r.labels[s]], n0, taken)
  {
  }

  lemma LabelsEnd(r: HG<int>, m: nat, f: map<State, State>, labels0: map<State, Sym>, labels: map<State, Sym>, n0: nat,
                  taken: set<State>)
    requires Labelled(r, m, f, labels) && KeptLabels(labels0, labels, n0, taken) && forall s :: s in r.labels ==> s < m
    ensures forall s :: s in r.labels ==> s in f && f[s] in labels && labels[f[s]] == r.labels[s]
  {
  }

  lemma FsmEnds(h: HG<int>, n: nat)
    requires IsFsm(h, n)
    ensures h.start.Some? && h.final.Some? && h.start.value < n && h.final.value < n && h.start.value !in h.labels
    ensures Inside(h, n)
  {
  }

  class Concat {
    var l: HG<int>
    var nStates: nat
    var cache: map<State, State>

    constructor (l: HG<int>, nStates: nat)
      ensures this.l == l && this.nStates == nStates && cache == map[]
    {
      this.l, this.nStates, cache := l, nStates, map[];
    }

    method AddState() returns (s: State)
      modifies `nStates
      ensures s == old(nStates) && nStates == old(nStates) + 1
    {
      s := nStates;
      nStates := nStates + 1;
    }

    /** The name of a state of the right machine, a new one when it is met for the first time. */
    method StateFor(s: State) returns (t: State)
      modifies `nStates, `cache
      ensures if s in old(cache) then cache == old(cache) && nStates == old(nStates)
              else cache == old(cache)[s := old(nStates)] && nStates == old(nStates) + 1
      ensures t == cache[s]
    {
      if s in cache {
        return cache[s];
      }
      t := AddState();
      cache := cache[s := t];
    }

    /** Adds a copy of one arc of the right machine. */
    method CopyArc(arc: Arc<int>, ghost n0: nat, ghost rs: State, ghost lf: State, ghost taken: set<State>)
      requires Renaming(cache, n0, nStates, rs, lf, taken)
      modifies this
      ensures Renaming(cache, n0, nStates, rs, lf, taken) && Extends(old(cache), cache)
      ensures Known(cache, arc) && l == old(l).(arcs := old(l).arcs + [Mapped(cache, arc)])
    {
      hide Renaming;
      ghost var f, n := cache, nStates;
      var head := StateFor(arc.head);
      RenamingKept(f, n, cache, nStates, n0, rs, lf, taken, arc.head);
      var tails: seq<State> := [];
      for k := 0 to |arc.tails|
        invariant l == old(l) && Renaming(cache, n0, nStates, rs, lf, taken) && Extends(old(cache), cache)
        invariant arc.head in cache && cache[arc.head] == head && |tails| == k
        invariant forall i :: 0 <= i < k ==> arc.tails[i] in cache && tails[i] == cache[arc.tails[i]]
      {
        f, n := cache, nStates;
        var t := StateFor(arc.tails[k]);
        RenamingKept(f, n, cache, nStates, n0, rs, lf, taken, arc.tails[k]);
        ExtendsFurther(old(cache), f, cache);
        tails := tails + [t];
      }
      assert Mapped(cache, arc).tails == tails;
      l := l.(arcs := l.arcs + [Arc(head, tails, arc.weight)]);
    }

    method CopyArcs(r: HG<int>, ghost n0: nat, ghost rs: State, ghost lf: State, ghost taken: set<State>)
      requires Renaming(cache, n0, nStates, rs, lf, taken)
      modifies this
      ensures Renaming(cache, n0, nStates, rs, lf, taken) && Extends(old(cache), cache)
      ensures Copied(old(l), l, r, |r.arcs|, cache)
    {
      hide Renaming, Mapped;
      for k := 0 to |r.arcs|
        invariant Renaming(cache, n0, nStates, rs, lf, taken) && Extends(old(cache), cache)
        invariant Copied(old(l), l, r, k, cache)
      {
        ghost var f := cache;
        CopyArc(r.arcs[k], n0, rs, lf, taken);
        ExtendsFurther(old(cache), f, cache);
        forall a | 0 <= a < k ensures Known(cache, r.arcs[a]) && Mapped(cache, r.arcs[a]) == Mapped(f, r.arcs[a]) {
          StillMapped(f, cache, r.arcs[a]);
        }
      }
    }

    /** Gives the copies of the right machine's labelled states their labels. */
    method TransferLabels(r: HG<int>, m: nat, ghost n0: nat, ghost rs: State, ghost lf: State, ghost taken: set<State>)
      requires Renaming(cache, n0, nStates, rs, lf, taken) && Inside(r, m) && rs !in r.labels
      modifies this
      ensures Renaming(cache, n0, nStates, rs, lf, taken) && Extends(old(cache), cache)
      ensures Relabelled(old(l), l, r, cache, n0, taken)
    {
      hide Inside, Renaming, Extends, Labelled, KeptLabels;
      LabelsInside(r, m);
      LabelsBegin(r, cache, l.labels, n0, taken);
      for s: State := 0 to m
        invariant Renaming(cache, n0, nStates, rs, lf, taken) && Extends(old(cache), cache)
        invariant l == old(l).(labels := l.labels)
        invariant Labelled(r, s, cache, l.labels) && KeptLabels(old(l).labels, l.labels, n0, taken)
      {
        if s in r.labels {
          ghost var f, n := cache, nStates;
          var t := StateFor(s);
          RenamingKept(f, n, cache, nStates, n0, rs, lf, taken, s);
          ExtendsFurther(old(cache), f, cache);
          LabelOne(r, s, f, cache, old(l).labels, l.labels, n0, nStates, rs, lf, taken);
          l := l.(labels := l.labels[t := r.labels[s]]);
        } else {
          NoLabel(r, s, cache, l.labels);
        }
      }
      LabelsEnd(r, m, cache, old(l).labels, l.labels, n0, taken);
    }

    /** An arc that reads epsilon, over a new labelled state. */
    method AddArcFsa(from: State, to: State)
      modifies this
      ensures nStates == old(nStates) + 1 && cache == old(cache)
      ensures l == old(l).(arcs := old(l).arcs + [Arc(to, [from, old(nStates)], 0)],
                           labels := old(l).labels[old(nStates) := EPSILON])
    {
      var labelState := AddState();
      l := l.(labels := l.labels[labelState := EPSILON]);
      l := l.(arcs := l.arcs + [Arc(to, [from, labelState], 0)]);
    }

    /** Decides how the right machine's start state is reached: it becomes the left one's final state,
        or an epsilon arc leads to it. */
    method MeetStart(r: HG<int>, m: nat, mergeFsmFinalStart: bool) returns (ghost taken: set<State>)
      requires IsFsm(l, nStates) && IsFsm(r, m) && cache == map[]
      modifies this
      ensures Met(old(l), old(nStates), r, l, cache, taken)
      ensures Renaming(cache, old(nStates), nStates, r.start.value, old(l).final.value, taken)
      ensures l.start == old(l).start && l.final == old(l).final
      ensures |l.arcs| == |old(l).arcs| + if MergesStates(old(l), r, mergeFsmFinalStart) then 0 else 1
    {
      FsmEnds(l, nStates);
      FsmEnds(r, m);
      hide IsFsm, Inside, Renaming, NoOutArcs, NoInArcs;
      var rs, lf := r.start.value, l.final.value;
      ghost var n0 := nStates;
      var nOut := CountOutArcs(l, lf);
      var nIn := CountInArcs(r, rs);
      if mergeFsmFinalStart && !(nOut > 0 && nIn > 0) {
        taken := {};
        cache := cache[rs := lf];
      } else {
        var t := StateFor(rs);
        taken := {nStates};
        AddArcFsa(lf, t);
      }
    }

    /** Appends the right machine to the left one, when both have start and final states. */
    method InplaceFsm(r: HG<int>, m: nat, mergeFsmFinalStart: bool)
      requires IsFsm(l, nStates) && IsFsm(r, m) && cache == map[]
      modifies this
      ensures Concatenates(old(l), r, l)
      ensures exists off :: Joined(old(l), old(nStates), r, l, cache, off)
      ensures MergesStates(old(l), r, mergeFsmFinalStart) <==> |l.arcs| == |old(l).arcs| + |r.arcs|
    {
      FsmEnds(l, nStates);
      FsmEnds(r, m);
      hide *;
      var rs, lf, rf := r.start.value, l.final.value, r.final.value;
      ghost var l0, n0 := l, nStates;
      ghost var taken := MeetStart(r, m, mergeFsmFinalStart);
      ghost var f, n, l1 := cache, nStates, l;
      var newFinal := StateFor(rf);
      RenamingKept(f, n, cache, nStates, n0, rs, lf, taken, rf);
      l := l.(final := Some(newFinal));
      ghost var f1 := cache;
      CopyArcs(r, n0, rs, lf, taken);
      ghost var l2, f2 := l, cache;
      TransferLabels(r, m, n0, rs, lf, taken);
      GluedNow(l0, n0, r, m, l1, f, f1, l2, f2, l, nStates, cache, taken);
      JoinedConcatenates(l0, n0, r, m, l, cache, |l1.arcs|);
    }

    method SetEmpty()
      modifies this
      ensures l == HG([], None, None, map[]) && nStates == 0 && cache == old(cache)
    {
      l, nStates := HG([], None, None, map[]), 0;
    }

    /** Appends the right machine to the left one; the result is empty when either is. Fails when the right
        machine has no start state and nothing has shown before that it is empty. */
    method Inplace(r: HG<int>, m: nat, opt: ConcatOptions, lStore: Storage, rStore: Storage) returns (ok: bool)
      requires FsmShape(l, nStates) && FsmShape(r, m) && cache == map[]
      requires SearchLists(lStore.Of(l), lStore.kind) && SearchLists(rStore.Of(r), rStore.kind)
      modifies this
      ensures ok ==> Concatenates(old(l), r, l)
      ensures ok <==> EndsEarly(old(l), r, opt, rStore) || r.start.Some?
      ensures EndsEarly(old(l), r, opt, rStore) ==> l == HG([], None, None, map[])
      ensures ok && !EndsEarly(old(l), r, opt, rStore) ==>
                && (exists off :: Joined(old(l), old(nStates), r, l, cache, off))
                && (MergesStates(old(l), r, opt.mergeFsmFinalStart) <==> |l.arcs| == |old(l).arcs| + |r.arcs|)
    {
      hide FsmShape, HasPath, Joined, Concatenates, PrunedEmpty, SearchLists, Found;
      EmptyIffNoPath(lStore.Of(l), nStates, lStore.inArcs, lStore.kind);
      EmptyIffNoPath(rStore.Of(r), m, rStore.inArcs, rStore.kind);
      ghost var l0 := l;
      var leftEmpty := IsEmpty(lStore.Of(l), lStore.inArcs, lStore.kind);
      if leftEmpty {
        SetEmpty();
        NothingConcatenates(l0, r);
        return true;
      }
      var rightEmpty := PrunedEmpty(r, rStore.inArcs, rStore.kind);
      if !rightEmpty && opt.checkEmptyRight {
        rightEmpty := IsEmpty(rStore.Of(r), rStore.inArcs, rStore.kind);
      }
      if rightEmpty {
        SetEmpty();
        NothingConcatenates(l0, r);
        return true;
      }
      if r.start.None? {
        return false;
      }
      HasEnds(l, r, rStore);
      InplaceFsm(r, m, opt.mergeFsmFinalStart);
      ok := true;
    }
  }

  /** The option is set, and no arc leaves the left final state or none leads to the right start state. */
  ghost predicate MergesStates(l: HG<int>, r: HG<int>, mergeFsmFinalStart: bool) {
    && mergeFsmFinalStart && l.final.Some? && r.start.Some?
    && (|| (forall a :: 0 <= a < |l.arcs| && |l.arcs[a].tails| > 0 ==> l.arcs[a].tails[0] != l.final.value)
        || (forall a :: 0 <= a < |r.arcs| ==> r.arcs[a].head != r.start.value))
  }

  datatype ConcatOptions = ConcatOptions(mergeFsmFinalStart: bool, checkEmptyRight: bool)

  /** How a machine stores its arcs, and the out-lists that the emptiness test uses. */
  datatype Storage = Storage(out: seq<seq<Mention>>, allTails: bool, inArcs: bool, kind: OutStorage) {

    function Of(h: HG<int>): Indexed<int> {
      Indexed(h, out, allTails)
    }
  }

  /** One of the machines is seen to be empty; the right one is looked at closely only on request. */
  ghost predicate EndsEarly(l: HG<int>, r: HG<int>, opt: ConcatOptions, rStore: Storage) {
    !HasPath(l) || PrunedEmpty(r, rStore.inArcs, rStore.kind) || (opt.checkEmptyRight && !HasPath(r))
  }

  lemma NothingConcatenates(l: HG<int>, r: HG<int>)
    requires !HasPath(l) || !HasPath(r)
    ensures Concatenates(l, r, HG([], None, None, map[]))
  {
    forall w, c, v, d, x, e ensures !AcceptsInTwo(l, r, w, c, v, d, x, e) {
    }
  }

  lemma HasEnds(l: HG<int>, r: HG<int>, rStore: Storage)
    requires HasPath(l) && !PrunedEmpty(r, rStore.inArcs, rStore.kind)
    ensures l.start.Some? && l.final.Some? && r.final.Some?
  {
  }

  /** How the two machines meet: `l1` is the left one with the bridge if there is one, `f` names the right one's start
      state. */
  ghost predicate Met(l0: HG<int>, n0: nat, r: HG<int>, l1: HG<int>, f: map<State, State>, taken: set<State>) {
    && l0.final.Some? && r.start.Some? && r.start.value in f
    && (|| (taken == {} && f[r.start.value] == l0.final.value && l1 == l0 && SafeMerge(l0, r))
        || (taken == {n0 + 1} && f[r.start.value] == n0 != l0.final.value
            && l1 == l0.(arcs := l0.arcs + [Arc(n0, [l0.final.value, n0 + 1], 0)],
                         labels := l0.labels[n0 + 1 := EPSILON])))
  }

  /** After the steps of the program: the arcs of `l1` are those of the left machine and perhaps the bridge. */
  lemma GluedNow(l0: HG<int>, n0: nat, r: HG<int>, m: nat, l1: HG<int>, f: map<State, State>, f1: map<State, State>,
                 l2: HG<int>, f2: map<State, State>, l3: HG<int>, n3: nat, f3: map<State, State>, taken: set<State>)
    requires IsFsm(l0, n0) && IsFsm(r, m) && Met(l0, n0, r, l1, f, taken)
    requires Extends(f, f1) && r.final.value in f1 && Extends(f1, f2) && Extends(f2, f3)
    requires Renaming(f3, n0, n3, r.start.value, l0.final.value, taken)
    requires r.final.Some? && Copied(l1.(final := Some(f1[r.final.value])), l2, r, |r.arcs|, f2)
    requires Relabelled(l2, l3, r, f3, n0, taken)
    ensures Joined(l0, n0, r, l3, f3, |l1.arcs|)
  {
    FsmEnds(l0, n0);
    LabelsInside(l0, n0);
    GluedArcs(l0, n0, r, l1, f, f1, l2, f2, l3, f3, taken);
    hide Mapped, NoOutArcs, NoInArcs, Inside, Known, Copied, IsFsm;
  }

  lemma GluedArcs(l0: HG<int>, n0: nat, r: HG<int>, l1: HG<int>, f: map<State, State>, f1: map<State, State>,
                  l2: HG<int>, f2: map<State, State>, l3: HG<int>, f3: map<State, State>, taken: set<State>)
    requires Met(l0, n0, r, l1, f, taken) && r.final.Some? && r.final.value in f1 && Extends(f2, f3)
    requires Copied(l1.(final := Some(f1[r.final.value])), l2, r, |r.arcs|, f2) && Relabelled(l2, l3, r, f3, n0, taken)
    ensures l3.start == l1.start && l3.final == Some(f1[r.final.value])
    ensures |l3.arcs| == |l1.arcs| + |r.arcs| && |l1.arcs| >= |l0.arcs| && l3.arcs[..|l0.arcs|] == l0.arcs
    ensures |l1.arcs| > |l0.arcs| ==> l3.arcs[|l0.arcs|] == l1.arcs[|l0.arcs|]
    ensures forall a :: 0 <= a < |r.arcs| ==> Known(f3, r.arcs[a]) && l3.arcs[|l1.arcs| + a] == Mapped(f3, r.arcs[a])
  {
    hide Mapped, SafeMerge;
    assert l3.arcs[..|l0.arcs|] == l3.arcs[..|l1.arcs|][..|l0.arcs|] == l0.arcs;
    if |l1.arcs| > |l0.arcs| {
      assert l3.arcs[|l0.arcs|] == l3.arcs[..|l1.arcs|][|l0.arcs|];
    }
    forall a | 0 <= a < |r.arcs| ensures Known(f3, r.arcs[a]) && l3.arcs[|l1.arcs| + a] == Mapped(f3, r.arcs[a]) {
      StillMapped(f2, f3, r.arcs[a]);
    }
  }

  /** How many arcs have `s` as their first tail. */
  method CountOutArcs(h: HG<int>, s: State) returns (n: nat)
    ensures n == |set a | 0 <= a < |h.arcs| && |h.arcs[a].tails| > 0 && h.arcs[a].tails[0] == s|
    ensures n == 0 <==> NoOutArcs(h, s)
  {
    n := 0;
    ghost var found: set<nat> := {};
    for k := 0 to |h.arcs|
      invariant n == |found| && found == set a | 0 <= a < k && |h.arcs[a].tails| > 0 && h.arcs[a].tails[0] == s
    {
      if |h.arcs[k].tails| > 0 && h.arcs[k].tails[0] == s {
        found := found + {k};
        n := n + 1;
      }
    }
    NoneFound(h, s, found);
  }

  lemma NoneFound(h: HG<int>, s: State, found: set<nat>)
    requires found == set a | 0 <= a < |h.arcs| && |h.arcs[a].tails| > 0 && h.arcs[a].tails[0] == s
    ensures |found| == 0 <==> NoOutArcs(h, s)
  {
    if |found| == 0 {
      assert found == {};
      forall a | 0 <= a < |h.arcs| && |h.arcs[a].tails| > 0 ensures h.arcs[a].tails[0] != s {
        assert a !in found;
      }
    }
  }

  /** How many arcs lead to `s`. */
  method CountInArcs(h: HG<int>, s: State) returns (n: nat)
    ensures n == |set a | 0 <= a < |h.arcs| && h.arcs[a].head == s|
    ensures n == 0 <==> NoInArcs(h, s)
  {
    n := 0;
    ghost var found: set<nat> := {};
    for k := 0 to |h.arcs|
      invariant n == |found| && found == set a | 0 <= a < k && h.arcs[a].head == s
    {
      if h.arcs[k].head == s {
        found := found + {k};
        n := n + 1;
      }
    }
    if |found| == 0 {
      assert found == {};
      forall a | 0 <= a < |h.arcs| ensures h.arcs[a].head != s {
        assert a !in found;
      }
    }
  }
}
