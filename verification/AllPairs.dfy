/** All-pairs path sums of a topologically sorted graph, in any semiring, in quadratic time. */
module AllPairs {
  import opened Hypergraph
  import opened StateOrder
  import opened PathSums

  /** Row `from` of the table when the arcs of the states below `v`, and `k` arcs of `v`, are used. */
  ghost predicate RowRight<W>(g: Adjacency<W>, s: Semiring<W>, from: State, row: seq<W>, v: State, k: nat)
    requires g.Valid() && v <= |g.lists| && k <= if v < |g.lists| then |g.lists[v]| else 0
  {
    |row| == |g.lists| && forall j: State :: j < |row| ==> row[j] == Total(s, g.h, Into(g, from, j, v, k))
  }

  lemma RowBegins<W(!new)>(g: Adjacency<W>, s: Semiring<W>, from: State, row: seq<W>)
    requires OnceEach(g) && Lawful(s) && from < |row| == |g.lists|
    requires forall j :: 0 <= j < |row| ==> row[j] == if j == from then s.one else s.zero
    ensures RowRight(g, s, from, row, from, 0)
  {
    forall j: State | j < |row| ensures row[j] == Total(s, g.h, Into(g, from, j, from, 0)) {
      NothingBelow(g, from, j, from, 0);
      var empty: seq<nat> := [];
      assert [empty][..0] == [] && Total(s, g.h, [empty]) == s.plus(s.zero, s.one);
    }
  }

  /** An increasing arc out of `v` brings nothing to `v` itself. */
  lemma {:induction false} SameAtSource<W>(g: Adjacency<W>, from: State, v: State, k: nat)
    requires g.Valid() && v < |g.lists| && k <= |g.lists[v]|
    ensures Into(g, from, v, v, k) == Into(g, from, v, v, 0)
  {
    if k > 0 {
      SameAtSource(g, from, v, k - 1);
      IntoArc(g, from, v, v, k);
    }
  }

  lemma RowArc<W(!new)>(g: Adjacency<W>, s: Semiring<W>, from: State, row: seq<W>, v: State, k: nat)
    requires OnceEach(g) && Increasing(g) && Lawful(s) && v < |g.lists| && k < |g.lists[v]|
    requires RowRight(g, s, from, row, v, k)
    ensures var arc := g.h.arcs[g.lists[v][k]];
            RowRight(g, s, from, row[arc.head := s.plus(row[arc.head], s.times(row[v], arc.weight))], v, k + 1)
  {
    hide Into, Lawful;
    var a := g.lists[v][k];
    var arc := g.h.arcs[a];
    var row' := row[arc.head := s.plus(row[arc.head], s.times(row[v], arc.weight))];
    forall j: State | j < |row| ensures row'[j] == Total(s, g.h, Into(g, from, j, v, k + 1)) {
      IntoArc(g, from, j, v, k + 1);
      if j == arc.head {
        SameAtSource(g, from, v, k);
        TotalExtended(s, g.h, Into(g, from, v, v, 0), a);
        TotalAppend(s, g.h, Into(g, from, j, v, k), Extended(Into(g, from, v, v, 0), a));
      } else {
        assert Into(g, from, j, v, k) + [] == Into(g, from, j, v, k);
      }
    }
  }

  /** A state with no weight contributes nothing. */
  lemma {:induction false} RowSkip<W(!new)>(g: Adjacency<W>, s: Semiring<W>, from: State, row: seq<W>, v: State, k: nat)
    requires OnceEach(g) && Increasing(g) && Lawful(s) && v < |g.lists| && k <= |g.lists[v]|
    requires RowRight(g, s, from, row, v, 0) && row[v] == s.zero
    ensures RowRight(g, s, from, row, v, k)
  {
    hide Into, Lawful;
    assert |row| == |g.lists|;
    if k > 0 {
      hide RowRight;
      RowSkip(g, s, from, row, v, k - 1);
      RowArc(g, s, from, row, v, k - 1);
      var arc := g.h.arcs[g.lists[v][k - 1]];
      ZeroAddsNothing(s, row[arc.head], arc.weight);
      assert row[arc.head := row[arc.head]] == row;
    }
  }

  lemma ZeroAddsNothing<W(!new)>(s: Semiring<W>, a: W, b: W)
    requires Lawful(s)
    ensures s.plus(a, s.times(s.zero, b)) == a
  {
    assert s.plus(a, s.zero) == s.plus(s.zero, a);
  }

  lemma RowNext<W>(g: Adjacency<W>, s: Semiring<W>, from: State, row: seq<W>, v: State)
    requires g.Valid() && v < |g.lists| && RowRight(g, s, from, row, v, |g.lists[v]|)
    ensures RowRight(g, s, from, row, v + 1, 0)
  {
    hide Into;
    forall j: State | j < |row| ensures row[j] == Total(s, g.h, Into(g, from, j, v + 1, 0)) {
      IntoState(g, from, j, v + 1);
    }
  }

  lemma RowIsPathSum<W(!new)>(g: Adjacency<W>, s: Semiring<W>, from: State, row: seq<W>)
    requires OnceEach(g) && Increasing(g) && Lawful(s) && RowRight(g, s, from, row, |g.lists|, 0)
    ensures forall j :: 0 <= j < |row| ==> IsPathSum(s, g.h, from, j, row[j])
  {
    forall j: State | j < |row| ensures IsPathSum(s, g.h, from, j, row[j]) {
      IntoEnumerates(g, from, j, |g.lists|);
      OneListIsEnough(s, g.h, from, j, Into(g, from, j, |g.lists|, 0));
    }
  }

  class AllPairsSortedDag<W(==, !new)> {
    const g: Adjacency<W>
    const s: Semiring<W>
    const distances: array2<W>
    const maxEnd: array<State>

    constructor (g: Adjacency<W>, s: Semiring<W>, distances: array2<W>)
      ensures this.g == g && this.s == s && this.distances == distances
      ensures fresh(maxEnd) && maxEnd.Length == |g.lists|
    {
      this.g, this.s, this.distances := g, s, distances;
      maxEnd := new State[|g.lists|](_ => 0);
    }

    ghost predicate Valid() {
      OnceEach(g) && Lawful(s) && distances.Length0 == distances.Length1 == maxEnd.Length == |g.lists|
    }

    ghost function Row(i: State): (r: seq<W>)
      requires i < distances.Length0
      reads distances
      ensures |r| == distances.Length1
    {
      seq(distances.Length1, j requires 0 <= j < distances.Length1 reads distances => distances[i, j])
    }

    /** Extends the paths that reach `via`; fails on an arc that does not pass `from`. */
    method Via(from: State, via: State) returns (ok: bool)
      requires Valid() && from <= via < distances.Length0
      requires Increasing(g) ==> RowRight(g, s, from, Row(from), via, 0)
      modifies distances
      ensures forall i, j :: 0 <= i < distances.Length0 && 0 <= j < distances.Length1 ==>
                i != from || (Increasing(g) && j <= via) ==> distances[i, j] == old(distances[i, j])
      ensures !ok ==> !Increasing(g)
      ensures ok ==> forall k :: 0 <= k < |g.lists[via]| ==> g.h.arcs[g.lists[via][k]].head > from
      ensures ok && Increasing(g) ==> RowRight(g, s, from, Row(from), via, |g.lists[via]|)
    {
      hide RowRight, Lawful;
      for k := 0 to |g.lists[via]|
        invariant forall i, j :: 0 <= i < distances.Length0 && 0 <= j < distances.Length1 ==>
                    i != from || (Increasing(g) && j <= via) ==> distances[i, j] == old(distances[i, j])
        invariant Increasing(g) ==> RowRight(g, s, from, Row(from), via, k)
        invariant forall l :: 0 <= l < k ==> g.h.arcs[g.lists[via][l]].head > from
      {
        var arc := g.h.arcs[g.lists[via][k]];
        assert g.From(arc) == via;
        if arc.head <= from {
          assert !Increasing(g);
          return false;
        }
        ghost var row := Row(from);
        if Increasing(g) {
          RowArc(g, s, from, row, via, k);
        }
        distances[from, arc.head] := s.plus(distances[from, arc.head], s.times(distances[from, via], arc.weight));
        assert Row(from) == row[arc.head := s.plus(row[arc.head], s.times(row[via], arc.weight))];
      }
      ok := true;
    }

    /** Sums the paths from one state to all others. */
    method From(from: State) returns (ok: bool)
      requires Valid() && from < distances.Length0
      requires forall j :: 0 <= j < distances.Length1 ==> distances[from, j] == s.zero
      modifies distances, maxEnd
      ensures forall i, j :: 0 <= i < distances.Length0 && 0 <= j < distances.Length1 && i != from ==>
                distances[i, j] == old(distances[i, j])
      ensures forall i :: 0 <= i < maxEnd.Length && i != from ==> maxEnd[i] == old(maxEnd[i])
      ensures !ok ==> !Increasing(g)
      ensures ok ==> forall k :: 0 <= k < |g.lists[from]| ==> g.h.arcs[g.lists[from][k]].head > from
      ensures ok && Increasing(g) ==> RowRight(g, s, from, Row(from), |g.lists|, 0)
      ensures ok && Increasing(g) ==> from <= maxEnd[from] < |g.lists| && distances[from, maxEnd[from]] != s.zero
      ensures ok && Increasing(g) ==> forall j :: maxEnd[from] < j < |g.lists| ==> distances[from, j] == s.zero
    {
      hide RowRight;
      distances[from, from] := s.one;
      RowBegins(g, s, from, Row(from));
      var maxEndFrom: State := 0;
      for via := from to |g.lists|
        invariant forall i, j :: 0 <= i < distances.Length0 && 0 <= j < distances.Length1 && i != from ==>
                  distances[i, j] == old(distances[i, j])
        invariant forall i :: 0 <= i < maxEnd.Length ==> maxEnd[i] == old(maxEnd[i])
        invariant via == from ==> distances[from, from] == s.one
        invariant via > from ==> forall k :: 0 <= k < |g.lists[from]| ==> g.h.arcs[g.lists[from][k]].head > from
        invariant Increasing(g) ==> RowRight(g, s, from, Row(from), via, 0)
        invariant Increasing(g) && via > from ==> from <= maxEndFrom < via && distances[from, maxEndFrom] != s.zero
        invariant Increasing(g) && via > from ==> forall j :: maxEndFrom < j < via ==> distances[from, j] == s.zero
      {
        ghost var row := Row(from);
        if distances[from, via] == s.zero {
          if Increasing(g) {
            RowSkip(g, s, from, row, via, |g.lists[via]|);
            RowNext(g, s, from, row, via);
          }
        } else {
          maxEndFrom := via;
          ok := Via(from, via);
          if !ok {
            return;
          }
          if Increasing(g) {
            RowNext(g, s, from, Row(from), via);
          }
        }
      }
      maxEnd[from] := maxEndFrom;
      ok := true;
    }

    /** Succeeds just when every arc leads to a greater state, and then every entry is the sum over
        all paths and `maxEnd` the last state each row reaches. */
    method Compute() returns (ok: bool)
      requires Valid()
      requires forall i, j :: 0 <= i < distances.Length0 && 0 <= j < distances.Length1 ==> distances[i, j] == s.zero
      modifies distances, maxEnd
      ensures ok <==> Increasing(g)
      ensures ok ==> forall i, j :: 0 <= i < distances.Length0 && 0 <= j < distances.Length1 ==>
                       IsPathSum(s, g.h, i, j, distances[i, j])
      ensures ok ==> forall i :: 0 <= i < |g.lists| ==> i <= maxEnd[i] < |g.lists| && distances[i, maxEnd[i]] != s.zero
      ensures ok ==> forall i, j :: 0 <= i < |g.lists| && maxEnd[i] < j < |g.lists| ==> distances[i, j] == s.zero
    {
      hide RowRight, Lawful;
      for from := 0 to |g.lists|
        invariant forall i, j :: from <= i < distances.Length0 && 0 <= j < distances.Length1 ==>
                  distances[i, j] == s.zero
        invariant forall i, k :: 0 <= i < from && 0 <= k < |g.lists[i]| ==> g.h.arcs[g.lists[i][k]].head > i
        invariant Increasing(g) ==> forall i, j :: 0 <= i < from && 0 <= j < distances.Length1 ==>
                  IsPathSum(s, g.h, i, j, distances[i, j])
        invariant Increasing(g) ==> forall i :: 0 <= i < from ==>
                  i <= maxEnd[i] < |g.lists| && distances[i, maxEnd[i]] != s.zero
        invariant Increasing(g) ==> forall i, j :: 0 <= i < from && maxEnd[i] < j < |g.lists| ==>
                  distances[i, j] == s.zero
      {
        ok := From(from);
        if !ok {
          return;
        }
        if Increasing(g) {
          RowIsPathSum(g, s, from, Row(from));
          assert forall j :: 0 <= j < distances.Length1 ==> Row(from)[j] == distances[from, j];
        }
      }
      ok := true;
    }
  }

}
