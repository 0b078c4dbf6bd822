/** The agenda-driven chart builder: composition of a weighted grammar with a weighted transducer. */
module Compose {
  import opened Hypergraph
  import opened Transducer
  import opened EarleyItems
  import opened EpsilonPlaces
  import opened CompositionMeaning
  import opened ElseArcs

  /** The first position whose label is not below `a`. */
  method LowerBound(arcs: seq<FstArc>, a: Sym) returns (lo: nat)
    requires Sorted(arcs)
    ensures lo <= |arcs|
    ensures forall k :: 0 <= k < lo ==> arcs[k].input < a
    ensures forall k :: lo <= k < |arcs| ==> a <= arcs[k].input
  {
    lo := 0;
    var count: nat := |arcs|;
    while count > 0
      invariant 0 <= lo <= lo + count <= |arcs|
      invariant forall k :: 0 <= k < lo ==> arcs[k].input < a
      invariant forall k :: lo + count <= k < |arcs| ==> a <= arcs[k].input
    {
      var step := count / 2;
      if arcs[lo + step].input < a {
        lo := lo + step + 1;
        count := count - step - 1;
      } else {
        count := step;
      }
    }
  }

  /** The sum of a chart's weights, which strictly falls whenever an entry improves. */
  ghost function Total(c: Chart): nat
    decreases c.Keys
  {
    if c == map[] then 0 else
      var x :| x in c;
      c[x] + Total(c - {x})
  }

  lemma TotalMinus(c: Chart, x: Item)
    requires x in c
    ensures Total(c) == c[x] + Total(c - {x})
    decreases c.Keys
  {
    var y :| y in c && Total(c) == c[y] + Total(c - {y});
    if y != x {
      TotalMinus(c - {y}, x);
      TotalMinus(c - {x}, y);
      assert c - {y} - {x} == c - {x} - {y};
    }
  }

  lemma TotalImproves(c: Chart, x: Item, w: nat)
    requires x in c && w < c[x]
    ensures Total(c[x := w]) < Total(c)
  {
    TotalMinus(c, x);
    TotalMinus(c[x := w], x);
    assert c[x := w] - {x} == c - {x};
  }

  /** Every item the input admits. */
  ghost function Universe(p: Input): set<Item> {
    set a, d, f, t, l | 0 <= a < |p.cfg.arcs| && 0 <= d <= |p.cfg.arcs[a].tails|
                      && 0 <= f < |p.fst.out| && 0 <= t < |p.fst.out| && l in {false, true} :: Item(f, t, a, d, l)
  }

  lemma InUniverse(p: Input, c: Chart)
    requires AllInRange(p, c)
    ensures c.Keys <= Universe(p)
  {
  }

  /** The better of `w` and the weight the item has already. */
  function Lower(c: Chart, x: Item, w: nat): nat {
    if x in c && c[x] <= w then c[x] else w
  }

  // ----- The two indexes and the list of results -----

  type Index = map<(State, State), set<Item>>

  predicate Files(m: Index, key: (State, State), x: Item) {
    key in m && x in m[key]
  }

  function Filed(m: Index, key: (State, State), x: Item): Index {
    m[key := (if key in m then m[key] else {}) + {x}]
  }

  predicate IsWaiting(p: Input, x: Item) {
    p.InRange(x) && !p.IsComplete(x)
  }

  predicate IsFinished(p: Input, x: Item) {
    p.InRange(x) && p.IsComplete(x)
  }

  /** Exactly the charted items that wait for something are filed, under where they end and what they wait for. */
  ghost predicate WaitingFiled(p: Input, c: Chart, m: Index) {
    && (forall x :: x in c && IsWaiting(p, x) ==> Files(m, (x.to, p.Next(x)), x))
    && (forall k, x :: Files(m, k, x) ==> x in c && IsWaiting(p, x) && k == (x.to, p.Next(x)))
  }

  /** Exactly the charted items that are finished are filed, under where they begin and what they provide. */
  ghost predicate FinishedFiled(p: Input, c: Chart, m: Index) {
    && (forall x :: x in c && IsFinished(p, x) ==> Files(m, (x.from, p.Head(x)), x))
    && (forall k, x :: Files(m, k, x) ==> x in c && IsFinished(p, x) && k == (x.from, p.Head(x)))
  }

  ghost predicate FinalsListed(p: Input, c: Chart, finals: set<Item>) {
    forall x :: x in finals <==> x in c && p.InRange(x) && p.IsFinal(x)
  }

  lemma FiledFiles(m: Index, key: (State, State), x: Item)
    ensures forall k, y :: Files(Filed(m, key, x), k, y) <==> Files(m, k, y) || (k == key && y == x)
  {
  }

  lemma OneMoreWaiting(p: Input, c: Chart, m: Index, x: Item, w: nat)
    requires WaitingFiled(p, c, m) && IsWaiting(p, x)
    ensures WaitingFiled(p, c[x := w], Filed(m, (x.to, p.Next(x)), x))
  {
    hide Files;
    FiledFiles(m, (x.to, p.Next(x)), x);
  }

  lemma OneMoreFinished(p: Input, c: Chart, m: Index, x: Item, w: nat)
    requires FinishedFiled(p, c, m) && IsFinished(p, x)
    ensures FinishedFiled(p, c[x := w], Filed(m, (x.from, p.Head(x)), x))
  {
    hide Files;
    FiledFiles(m, (x.from, p.Head(x)), x);
  }

  /** An item that is charted already, or of the other kind, need not be filed. */
  lemma NoMoreFiled(p: Input, c: Chart, x: Item, w: nat, waiting: Index, finished: Index)
    requires WaitingFiled(p, c, waiting) && FinishedFiled(p, c, finished)
    ensures x in c || !IsWaiting(p, x) ==> WaitingFiled(p, c[x := w], waiting)
    ensures x in c || !IsFinished(p, x) ==> FinishedFiled(p, c[x := w], finished)
  {
  }

  class EarleyParser {
    const input: Input
    var agenda: seq<Item>
    // An item absent from one of these two has weight zero (infinite cost) there.
    var agendaWeight: Chart
    var chartWeight: Chart
    var itemsTo: Index
    var completeItemsFrom: Index
    var alreadyPredicted: set<(State, State)>
    var finalItems: set<Item>

    constructor (input: Input)
      ensures this.input == input
      ensures agenda == [] && agendaWeight == map[] && chartWeight == map[]
      ensures itemsTo == map[] && completeItemsFrom == map[] && alreadyPredicted == {} && finalItems == {}
    {
      this.input := input;
      agenda, agendaWeight, chartWeight := [], map[], map[];
      itemsTo, completeItemsFrom, alreadyPredicted, finalItems := map[], map[], {}, {};
    }

    /** The agenda lists exactly the items that have an agenda weight, once each. */
    ghost predicate AgendaValid()
      reads `agenda, `agendaWeight
    {
      && (forall i, j :: 0 <= i < j < |agenda| ==> agenda[i] != agenda[j])
      && (forall x :: x in agenda <==> x in agendaWeight)
    }

    /** The two indexes and the list of results describe the chart. */
    ghost predicate IndexValid()
      reads `chartWeight, `itemsTo, `completeItemsFrom, `finalItems
    {
      && AllInRange(input, chartWeight)
      && WaitingFiled(input, chartWeight, itemsTo)
      && FinishedFiled(input, chartWeight, completeItemsFrom)
      && FinalsListed(input, chartWeight, finalItems)
    }

    /** What every step keeps: each item in the chart or on the agenda is witnessed at its weight. */
    ghost predicate Ready()
      reads `agenda, `agendaWeight, `chartWeight, `itemsTo, `completeItemsFrom, `finalItems
    {
      && input.Valid() && AgendaValid() && IndexValid() && AllInRange(input, chartWeight)
      && Sound(input, chartWeight) && Sound(input, agendaWeight)
    }

    ghost predicate PredictionsKept()
      reads `agendaWeight, `chartWeight, `alreadyPredicted
    {
      forall at, s :: (at, s) in alreadyPredicted ==> PredictedAt(input, chartWeight, agendaWeight, at, s)
    }

    /** Keeps the better of two weights for an item already queued. */
    method PushAgendaItem(x: Item, w: nat)
      requires Ready() && Promised(input, x, w)
      modifies `agenda, `agendaWeight
      ensures Ready()
      ensures agendaWeight == old(agendaWeight)[x := Lower(old(agendaWeight), x, w)]
      ensures agenda == if x in old(agendaWeight) then old(agenda) else old(agenda) + [x]
    {
      hide Promised, IndexValid;
      if x !in agendaWeight {
        agendaWeight := agendaWeight[x := w];
        agenda := agenda + [x];
      } else if w < agendaWeight[x] {
        agendaWeight := agendaWeight[x := w];
      }
    }

    method Init()
      requires Ready() && chartWeight == map[] && alreadyPredicted == {}
      modifies `agenda, `agendaWeight, `alreadyPredicted
      ensures Ready() && InitDone(input, chartWeight, agendaWeight) && PredictionsKept()
    {
      hide Promised, IndexValid, AgendaValid;
      var s := input.cfg.final.value;
      var from := input.fst.start;
      for a := 0 to |input.cfg.arcs|
        invariant Ready()
        invariant alreadyPredicted == old(alreadyPredicted)
        invariant forall b :: 0 <= b < a && input.cfg.arcs[b].head == s ==>
                    Known(chartWeight, agendaWeight, Item(from, from, b, 0, false), input.cfg.arcs[b].weight)
      {
        if input.cfg.arcs[a].head == s {
          PromisedAtDotZero(input, from, a);
          PushAgendaItem(Item(from, from, a, 0, false), input.cfg.arcs[a].weight);
        }
      }
      assert PredictedAt(input, chartWeight, agendaWeight, from, s);
      alreadyPredicted := {(from, s)};
      forall at, s' | (at, s') in alreadyPredicted ensures PredictedAt(input, chartWeight, agendaWeight, at, s') {
        assert (at, s') == (from, s);
      }
    }

    method Predict(x: Item)
      requires Ready() && PredictionsKept() && x in chartWeight
      requires !input.IsComplete(x) && input.Next(x) !in input.cfg.labels
      modifies `agenda, `agendaWeight, `alreadyPredicted
      ensures Ready() && PredictionsKept() && Grew(old(agendaWeight), agendaWeight)
      ensures PredictDone(input, chartWeight, agendaWeight, x)
      ensures alreadyPredicted == if input.cfg.start == Some(input.Next(x)) then old(alreadyPredicted)
                                  else old(alreadyPredicted) + {(x.to, input.Next(x))}
      ensures input.cfg.start != Some(input.Next(x)) && (x.to, input.Next(x)) in old(alreadyPredicted) ==>
                agenda == old(agenda) && agendaWeight == old(agendaWeight)
    {
      hide Promised, IndexValid, AgendaValid, Sound;
      SoundAt(x);
      var s := input.Next(x);
      if input.cfg.start == Some(s) {
        PromisedSilentLeaf(input, x, chartWeight[x]);
        PushAgendaItem(Advanced(x, x.to), chartWeight[x]);
        return;
      }
      var from := x.to;
      if (from, s) in alreadyPredicted {
        assert alreadyPredicted + {(from, s)} == alreadyPredicted;
        return;
      }
      for a := 0 to |input.cfg.arcs|
        invariant Ready() && PredictionsKept() && Grew(old(agendaWeight), agendaWeight)
        invariant alreadyPredicted == old(alreadyPredicted)
        invariant forall b :: 0 <= b < a && input.cfg.arcs[b].head == s ==>
                    Known(chartWeight, agendaWeight, Item(from, from, b, 0, false), input.cfg.arcs[b].weight)
      {
        if input.cfg.arcs[a].head == s {
          PromisedAtDotZero(input, from, a);
          PushAgendaItem(Item(from, from, a, 0, false), input.cfg.arcs[a].weight);
        }
      }
      assert PredictedAt(input, chartWeight, agendaWeight, from, s);
      alreadyPredicted := alreadyPredicted + {(from, s)};
    }

    /** Attaches the epsilon arcs that leave the item's end, which sorting has put first. */
    method ScanEps(x: Item)
      requires Ready() && PredictionsKept() && x in chartWeight
      modifies `agenda, `agendaWeight
      ensures Ready() && PredictionsKept() && Grew(old(agendaWeight), agendaWeight)
      ensures EpsilonDone(input, chartWeight, agendaWeight, x)
    {
      hide Promised, IndexValid, AgendaValid, Sound;
      var tails := input.cfg.arcs[x.arc].tails;
      if x.dot > 0 {
        var mostRecentlyCompleted := tails[x.dot - 1];
        if mostRecentlyCompleted !in input.cfg.labels && !x.lastWasPhiOrEps
            && input.cfg.start != Some(mostRecentlyCompleted) {
          return;
        }
      } else if input.cfg.start == Some(tails[0]) {
        return;
      }
      if !input.IsComplete(x) && input.Next(x) !in input.cfg.labels {
        return;
      }
      assert input.EpsilonAllowed(x);
      var arcs := input.fst.out[x.to];
      for k := 0 to |arcs|
        invariant Ready() && PredictionsKept() && Grew(old(agendaWeight), agendaWeight)
        invariant forall j :: 0 <= j < k ==> arcs[j].input == EPSILON
        invariant forall j :: 0 <= j < k ==> SkipKnown(x, arcs[j])
      {
        if arcs[k].input != EPSILON {
          return;
        }
        PushSkipped(x, arcs[k]);
      }
    }

    /** The item's end moves along an arc that reads nothing. */
    method PushSkipped(x: Item, e: FstArc)
      requires Ready() && PredictionsKept() && x in chartWeight && e in input.fst.out[x.to] && SkipsAt(input, x, e)
      modifies `agenda, `agendaWeight
      ensures Ready() && PredictionsKept() && Grew(old(agendaWeight), agendaWeight)
      ensures SkipKnown(x, e)
    {
      hide Promised, IndexValid, AgendaValid, Sound, SkipsAt;
      SoundAt(x);
      PromisedSkip(input, x, chartWeight[x], e);
      PushAgendaItem(Skipped(x, e.head), chartWeight[x] + e.weight);
    }

    ghost predicate SkipKnown(x: Item, e: FstArc)
      reads `chartWeight, `agendaWeight
    {
      x in chartWeight && Known(chartWeight, agendaWeight, Skipped(x, e.head), chartWeight[x] + e.weight)
    }

    /** Matches the leaf after the dot. Fails on a grammar leaf labelled sigma, phi or rho. */
    method Scan(x: Item) returns (ok: bool)
      requires Ready() && PredictionsKept() && x in chartWeight
      requires !input.IsComplete(x) && input.Next(x) in input.cfg.labels
      modifies `agenda, `agendaWeight
      ensures Ready() && PredictionsKept() && Grew(old(agendaWeight), agendaWeight)
      ensures ok <==> !AtSpecialLeaf(x)
      ensures ok ==> LeafDone(input, chartWeight, agendaWeight, x)
    {
      hide Promised, IndexValid, AgendaValid, Sound;
      var searchLabel := input.cfg.labels[input.Next(x)];
      if searchLabel == EPSILON {
        SoundAt(x);
        PromisedSilentLeaf(input, x, chartWeight[x]);
        PushAgendaItem(Advanced(x, x.to), chartWeight[x]);
        return true;
      } else if searchLabel == PHI || searchLabel == RHO || searchLabel == SIGMA {
        return false;
      }
      var arcs := input.fst.out[x.to];
      var firstConditional, numMatches := ScanSigma(x, arcs, searchLabel);
      var numNamed := ScanNamed(x, arcs, searchLabel);
      numMatches := numMatches + numNamed;
      if numMatches == 0 && firstConditional < |arcs| && input.opts.enablePhiRhoMatch {
        ScanElse(x, arcs, firstConditional, searchLabel);
      }
      ok := true;
    }

    /** The lexical leaf `a` after the dot of `x` is about to be matched against `arcs`. */
    ghost predicate Scanning(x: Item, arcs: seq<FstArc>, a: Sym)
      reads `agenda, `agendaWeight, `chartWeight, `itemsTo, `completeItemsFrom, `finalItems, `alreadyPredicted
    {
      Ready() && PredictionsKept() && x in chartWeight && input.Lookahead(x) == Some(a) && arcs == input.fst.out[x.to]
    }

    /** Sigma arcs, which sorting has put right after the epsilons, match whatever is there. */
    method ScanSigma(x: Item, arcs: seq<FstArc>, a: Sym) returns (firstConditional: nat, numMatches: nat)
      requires Scanning(x, arcs, a)
      modifies `agenda, `agendaWeight
      ensures Scanning(x, arcs, a) && Grew(old(agendaWeight), agendaWeight)
      ensures forall e :: e in arcs && e.input == SIGMA ==> ConsumeKnown(x, e)
      ensures numMatches > 0 <==> input.opts.sigmaPreventsPhiRhoMatch && Names(arcs, SIGMA)
      ensures firstConditional <= |arcs|
      ensures forall j :: 0 <= j < |arcs| ==> (j < firstConditional <==> arcs[j].input <= SIGMA)
    {
      hide Promised, IndexValid, AgendaValid, Sound;
      firstConditional, numMatches := 0, 0;
      while firstConditional < |arcs| && arcs[firstConditional].input <= SIGMA
        invariant firstConditional <= |arcs|
        invariant Scanning(x, arcs, a) && Grew(old(agendaWeight), agendaWeight)
        invariant forall j :: 0 <= j < firstConditional ==> arcs[j].input <= SIGMA
        invariant forall j :: 0 <= j < firstConditional && arcs[j].input == SIGMA ==> ConsumeKnown(x, arcs[j])
        invariant numMatches > 0 <==> input.opts.sigmaPreventsPhiRhoMatch
                                      && exists j :: 0 <= j < firstConditional && arcs[j].input == SIGMA
      {
        if arcs[firstConditional].input == SIGMA {
          PushConsumed(x, arcs[firstConditional], a);
          if input.opts.sigmaPreventsPhiRhoMatch {
            numMatches := numMatches + 1;
          }
        }
        firstConditional := firstConditional + 1;
      }
    }

    /** The arcs that name the leaf, found by binary search. */
    method ScanNamed(x: Item, arcs: seq<FstArc>, a: Sym) returns (numMatches: nat)
      requires Scanning(x, arcs, a)
      modifies `agenda, `agendaWeight
      ensures Scanning(x, arcs, a) && Grew(old(agendaWeight), agendaWeight)
      ensures forall e :: e in arcs && e.input == a ==> ConsumeKnown(x, e)
      ensures numMatches > 0 <==> Names(arcs, a)
    {
      hide Promised, IndexValid, AgendaValid, Sound;
      var first := LowerBound(arcs, a);
      numMatches := 0;
      while first + numMatches < |arcs| && arcs[first + numMatches].input == a
        invariant first + numMatches <= |arcs|
        invariant Scanning(x, arcs, a) && Grew(old(agendaWeight), agendaWeight)
        invariant forall j :: first <= j < first + numMatches ==> arcs[j].input == a && ConsumeKnown(x, arcs[j])
      {
        PushConsumed(x, arcs[first + numMatches], a);
        numMatches := numMatches + 1;
      }
      assert numMatches > 0 ==> arcs[first].input == a;
    }

    /** Nothing matched: phi arcs lead on without reading, rho arcs read. */
    method ScanElse(x: Item, arcs: seq<FstArc>, firstConditional: nat, a: Sym)
      requires Scanning(x, arcs, a) && firstConditional <= |arcs| && Unmatched(input.opts, arcs, a)
      requires forall j :: 0 <= j < firstConditional ==> arcs[j].input <= SIGMA
      modifies `agenda, `agendaWeight
      ensures Scanning(x, arcs, a) && Grew(old(agendaWeight), agendaWeight)
      ensures forall e :: e in arcs && e.input == RHO ==> ConsumeKnown(x, e)
      ensures forall e :: e in arcs && e.input == PHI ==> SkipKnown(x, e)
    {
      hide Promised, IndexValid, AgendaValid, Sound;
      for k := firstConditional to |arcs|
        invariant Scanning(x, arcs, a) && Grew(old(agendaWeight), agendaWeight)
        invariant forall j :: firstConditional <= j < k && arcs[j].input == PHI ==> SkipKnown(x, arcs[j])
        invariant forall j :: firstConditional <= j < k && arcs[j].input == RHO ==> ConsumeKnown(x, arcs[j])
      {
        if arcs[k].input == PHI {
          PushSkipped(x, arcs[k]);
        } else if arcs[k].input == RHO {
          PushConsumed(x, arcs[k], a);
        }
      }
    }

    lemma SoundAt(x: Item)
      requires Ready() && x in chartWeight
      ensures Promised(input, x, chartWeight[x])
    {
      hide Promised, IndexValid, AgendaValid;
    }

    ghost predicate ConsumeKnown(x: Item, e: FstArc)
      reads `chartWeight, `agendaWeight
    {
      x in chartWeight && Known(chartWeight, agendaWeight, Advanced(x, e.head), chartWeight[x] + e.weight)
    }

    method PushConsumed(x: Item, e: FstArc, ghost a: Sym)
      requires Ready() && PredictionsKept() && x in chartWeight && input.Lookahead(x) == Some(a)
      requires e in input.fst.out[x.to] && Consumes(input.opts, input.fst.out[x.to], e, a)
      modifies `agenda, `agendaWeight
      ensures Ready() && PredictionsKept() && Grew(old(agendaWeight), agendaWeight)
      ensures ConsumeKnown(x, e)
    {
      hide Promised, IndexValid, AgendaValid, Sound;
      SoundAt(x);
      PromisedConsume(input, x, chartWeight[x], e, a);
      PushAgendaItem(Advanced(x, e.head), chartWeight[x] + e.weight);
    }

    /** A finished constituent meets every charted item that waits for it. */
    method Complete(x: Item)
      requires Ready() && PredictionsKept() && x in chartWeight && input.IsComplete(x)
      modifies `agenda, `agendaWeight
      ensures Ready() && PredictionsKept() && Grew(old(agendaWeight), agendaWeight)
      ensures forall y :: y in chartWeight ==> PairDone(input, chartWeight, agendaWeight, y, x)
    {
      hide Promised, IndexValid, AgendaValid, Sound;
      var key := (x.from, input.Head(x));
      var todo := if key in itemsTo then itemsTo[key] else {};
      WaitingOnly(key, todo);
      ghost var all := todo;
      while todo != {}
        invariant todo <= all
        invariant Ready() && PredictionsKept() && Grew(old(agendaWeight), agendaWeight)
        invariant forall y :: y in all - todo ==> PairDone(input, chartWeight, agendaWeight, y, x)
      {
        var oldItem :| oldItem in todo;
        ghost var g, done := agendaWeight, all - todo;
        if !input.IsComplete(oldItem) {
          JoinPair(oldItem, x);
        }
        todo := todo - {oldItem};
        assert all - todo == done + {oldItem};
        forall y | y in done ensures PairDone(input, chartWeight, agendaWeight, y, x) {
          assert PairDone(input, chartWeight, g, y, x);
        }
      }
    }

    /** An item meets every charted finished constituent it waits for. */
    method FindComplete(x: Item)
      requires Ready() && PredictionsKept() && x in chartWeight && !input.IsComplete(x)
      modifies `agenda, `agendaWeight
      ensures Ready() && PredictionsKept() && Grew(old(agendaWeight), agendaWeight)
      ensures forall y :: y in chartWeight ==> PairDone(input, chartWeight, agendaWeight, x, y)
    {
      hide Promised, IndexValid, AgendaValid, Sound;
      var nextTail := input.Next(x);
      var key := (x.to, nextTail);
      var todo := if key in completeItemsFrom then completeItemsFrom[key] else {};
      FinishedOnly(key, todo);
      ghost var all := todo;
      while todo != {}
        invariant todo <= all
        invariant Ready() && PredictionsKept() && Grew(old(agendaWeight), agendaWeight)
        invariant forall y :: y in all - todo ==> PairDone(input, chartWeight, agendaWeight, x, y)
      {
        var completeItem :| completeItem in todo;
        ghost var g, done := agendaWeight, all - todo;
        if input.Head(completeItem) == nextTail {
          JoinPair(x, completeItem);
        }
        todo := todo - {completeItem};
        assert all - todo == done + {completeItem};
        forall y | y in done ensures PairDone(input, chartWeight, agendaWeight, x, y) {
          assert PairDone(input, chartWeight, g, x, y);
        }
      }
    }

    /** Advances `x` over the finished constituent `y`. */
    method JoinPair(x: Item, y: Item)
      requires Ready() && PredictionsKept() && x in chartWeight && y in chartWeight && input.Fits(x, y)
      modifies `agenda, `agendaWeight
      ensures Ready() && PredictionsKept() && Grew(old(agendaWeight), agendaWeight)
      ensures PairDone(input, chartWeight, agendaWeight, x, y)
    {
      hide Promised, IndexValid, AgendaValid, Sound;
      SoundAt(x);
      SoundAt(y);
      PromisedConstituent(input, x, chartWeight[x], y, chartWeight[y]);
      PushAgendaItem(Advanced(x, y.to), chartWeight[x] + chartWeight[y]);
    }

    lemma WaitingOnly(key: (State, State), found: set<Item>)
      requires input.Valid() && IndexValid() && found == if key in itemsTo then itemsTo[key] else {}
      ensures forall y :: y in found <==>
                y in chartWeight && !input.IsComplete(y) && y.to == key.0 && input.Next(y) == key.1
    {
      assert forall y :: y in found <==> Files(itemsTo, key, y);
    }

    lemma FinishedOnly(key: (State, State), found: set<Item>)
      requires input.Valid() && IndexValid() && found == if key in completeItemsFrom then completeItemsFrom[key] else {}
      ensures forall y :: y in found <==>
                y in chartWeight && input.IsComplete(y) && y.from == key.0 && input.Head(y) == key.1
    {
      assert forall y :: y in found <==> Files(completeItemsFrom, key, y);
    }

    /** All that follows from `x` and the chart. */
    method AddConsequentsToAgenda(x: Item) returns (ok: bool)
      requires Ready() && PredictionsKept() && x in chartWeight
      modifies `agenda, `agendaWeight, `alreadyPredicted
      ensures Ready() && PredictionsKept() && Grew(old(agendaWeight), agendaWeight)
      ensures !ok <==> AtSpecialLeaf(x)
      ensures ok ==> OwnDone(input, chartWeight, agendaWeight, x)
      ensures ok ==> forall y :: y in chartWeight ==>
                PairDone(input, chartWeight, agendaWeight, x, y) && PairDone(input, chartWeight, agendaWeight, y, x)
    {
      hide Promised, IndexValid, AgendaValid;
      ok := true;
      ScanEps(x);
      HeadsAreNotAxioms();
      if input.IsComplete(x) {
        Complete(x);
      } else {
        var nextTail := input.Next(x);
        if nextTail in input.cfg.labels {
          ok := Scan(x);
        } else {
          Predict(x);
          FindComplete(x);
        }
      }
    }

    ghost predicate AtSpecialLeaf(x: Item)
      requires input.InRange(x)
    {
      !input.IsComplete(x) && input.Next(x) in input.cfg.labels && input.cfg.labels[input.Next(x)] in {SIGMA, PHI, RHO}
    }

    lemma HeadsAreNotAxioms()
      requires Ready()
      ensures forall y :: y in chartWeight ==> !input.cfg.IsAxiom(input.Head(y))
    {
      forall y | y in chartWeight ensures !input.cfg.IsAxiom(input.Head(y)) {
        var h :| Tells(input, h, y, chartWeight[y]);
      }
    }

    lemma PromisedInRange(x: Item)
      requires Ready() && agenda != [] && x == agenda[0]
      ensures x in agendaWeight && Promised(input, x, agendaWeight[x]) && input.InRange(x)
    {
    }

    method Unqueue(ghost x: Item)
      requires Ready() && PredictionsKept() && agenda != [] && x == agenda[0]
      modifies `agenda, `agendaWeight
      ensures agendaWeight == old(agendaWeight) - {x} && agenda == old(agenda)[1..]
      ensures Ready()
    {
      hide Promised, IndexValid;
      agenda, agendaWeight := agenda[1..], agendaWeight - {agenda[0]};
    }

    /** Files a newly charted item under what it waits for or what it provides. */
    method EnterChart(x: Item, w: nat)
      requires input.Valid() && IndexValid() && x !in chartWeight && input.InRange(x)
      modifies `chartWeight, `itemsTo, `completeItemsFrom, `finalItems
      ensures IndexValid() && chartWeight == old(chartWeight)[x := w]
    {
      hide WaitingFiled, FinishedFiled;
      NoMoreFiled(input, chartWeight, x, w, itemsTo, completeItemsFrom);
      if input.IsComplete(x) {
        OneMoreFinished(input, chartWeight, completeItemsFrom, x, w);
        completeItemsFrom := Filed(completeItemsFrom, (x.from, input.Head(x)), x);
      } else {
        OneMoreWaiting(input, chartWeight, itemsTo, x, w);
        itemsTo := Filed(itemsTo, (x.to, input.Next(x)), x);
      }
      chartWeight := chartWeight[x := w];
      if input.IsFinal(x) {
        finalItems := finalItems + {x};
      }
    }

    /** Adds the agenda's weight to the chart's. `improved` tells whether that changed anything. */
    method ChartItem(x: Item, w: nat) returns (improved: bool)
      requires Ready() && Promised(input, x, w) && input.InRange(x)
      modifies `chartWeight, `itemsTo, `completeItemsFrom, `finalItems
      ensures Ready()
      ensures chartWeight == old(chartWeight)[x := Lower(old(chartWeight), x, w)]
      ensures improved <==> chartWeight != old(chartWeight)
      ensures improved ==>
                || old(chartWeight).Keys < chartWeight.Keys
                || (old(chartWeight).Keys == chartWeight.Keys && Total(chartWeight) < Total(old(chartWeight)))
    {
      hide Promised, AgendaValid, Total, WaitingFiled, FinishedFiled, Filed;
      var wasCharted := x in chartWeight;
      improved := !wasCharted || w < chartWeight[x];
      if !wasCharted {
        EnterChart(x, w);
      } else if improved {
        TotalImproves(chartWeight, x, w);
        NoMoreFiled(input, chartWeight, x, w, itemsTo, completeItemsFrom);
        chartWeight := chartWeight[x := w];
      }
    }

    /** Pops the agenda, charts the item, and lets it act if its weight changed. */
    method ProcessHead() returns (ok: bool)
      requires Ready() && PredictionsKept() && Closed(input, chartWeight, agendaWeight) && agenda != []
      modifies this
      ensures Ready()
      ensures ok ==> PredictionsKept() && Closed(input, chartWeight, agendaWeight)
      ensures !ok ==> exists x :: x in chartWeight && AtSpecialLeaf(x)
      ensures || old(chartWeight).Keys < chartWeight.Keys
              || (old(chartWeight).Keys == chartWeight.Keys && Total(chartWeight) < Total(old(chartWeight)))
              || (old(chartWeight) == chartWeight && |agenda| < |old(agenda)|)
    {
      hide Promised, OwnDone, PairDone, PredictedAt, Closed, ClosedExcept, InitDone, AgendaValid, IndexValid, Sound;
      ok := true;
      ghost var c, g := chartWeight, agendaWeight;
      var x := agenda[0];
      PromisedInRange(x);
      var w := agendaWeight[x];
      Unqueue(x);
      var improved := ChartItem(x, w);
      PoppedKeepsKnown(input, c, g, x, chartWeight);
      if improved {
        ghost var g' := agendaWeight;
        ok := AddConsequentsToAgenda(x);
        if ok {
          ClosedAgain(input, chartWeight, g', agendaWeight, x);
        }
      }
    }

    /** Runs the agenda dry. `ok` is false when the grammar has a leaf that composition rejects. */
    method BuildChart() returns (ok: bool)
      requires input.Valid()
      requires agenda == [] && agendaWeight == map[] && chartWeight == map[]
      requires itemsTo == map[] && completeItemsFrom == map[] && alreadyPredicted == {} && finalItems == {}
      modifies this
      ensures Ready()
      ensures ok ==> Closed(input, chartWeight, map[])
      ensures ok <==> forall x :: x in chartWeight && !input.IsComplete(x) && input.Next(x) in input.cfg.labels ==>
                input.cfg.labels[input.Next(x)] !in {SIGMA, PHI, RHO}
      ensures forall z :: z in finalItems ==> z in chartWeight && Represents(z)
      ensures ok ==> LeastOfCovered()
      ensures ok ==> forall a, w :: Result(a, w) <==> AttachablePair(input, a, w)
      ensures ok ==> forall a, w :: Result(a, w) <==> PlainPair(input, a, w)
      ensures ok && HarmlessStarts(input) ==> forall t, path :: AcceptedPlainly(input, t, path) ==>
                Result(t.arc, PairCost(input, t, path))
    {
      Init();
      while agenda != []
        invariant Ready() && PredictionsKept() && Closed(input, chartWeight, agendaWeight)
        decreases Universe(input) - chartWeight.Keys, Total(chartWeight), |agenda|
      {
        hide Promised, OwnDone, PairDone, PredictedAt, Closed, InitDone, AgendaValid, IndexValid, Sound;
        hide LeastOfCovered, Represents, Result, AttachablePair, PlainPair, HarmlessStarts;
        InUniverse(input, chartWeight);
        ok := ProcessHead();
        if !ok {
          FinalItemsRepresent();
          return;
        }
        InUniverse(input, chartWeight);
      }
      ok := true;
      assert agendaWeight == map[];
      FinalItemsRepresent();
      FinalItemsAreLeast();
      ResultsArePairs();
      hide AttachablePair, PlainPair, AcceptedPlainly;
      forall a, w ensures AttachablePair(input, a, w) <==> PlainPair(input, a, w) {
        PairsAlike(input, a, w);
      }
      if HarmlessStarts(input) {
        AcceptedIsResult();
      }
    }

    /** One of the pairs that the item stands for costs what the item costs. */
    ghost predicate Represents(z: Item)
      requires z in chartWeight
      reads `chartWeight
    {
      exists t, path :: Covers(input, z, t, path) && PairCost(input, t, path) == chartWeight[z]
    }

    /** Whatever stands for a pair is a final item and costs no more than that pair. */
    ghost predicate LeastOfCovered()
      reads `chartWeight, `finalItems
    {
      forall z, t, path :: Covers(input, z, t, path) ==>
        z in finalItems && z in chartWeight && chartWeight[z] <= PairCost(input, t, path)
    }

    /** Some final item ends rule `a` at a cost of at most `w`. */
    ghost predicate Result(a: nat, w: int)
      reads `chartWeight, `finalItems
    {
      exists z :: z in finalItems && z in chartWeight && z.arc == a && chartWeight[z] <= w
    }

    lemma FinalItemsRepresent()
      requires Ready()
      ensures forall z :: z in finalItems ==> z in chartWeight && Represents(z)
    {
      hide Promised, Covers, AgendaValid;
      forall z | z in finalItems ensures z in chartWeight && Represents(z) {
        SoundAt(z);
        var t, path := FinalCoversPair(input, z, chartWeight[z]);
      }
    }

    lemma FinalItemsAreLeast()
      requires Ready() && Closed(input, chartWeight, map[])
      ensures LeastOfCovered()
    {
      forall z, t, path | Covers(input, z, t, path)
        ensures z in finalItems && z in chartWeight && chartWeight[z] <= PairCost(input, t, path)
      {
        var h :| CoversBy(input, z, t, path, h);
        CoversCost(input, z, t, path, h);
        StoryIsCharted(input, chartWeight, h);
      }
    }

    lemma ResultsArePairs()
      requires input.Valid() && LeastOfCovered() && forall z :: z in finalItems ==> z in chartWeight && Represents(z)
      ensures forall a, w :: Result(a, w) <==> AttachablePair(input, a, w)
    {
      forall a, w ensures Result(a, w) <==> AttachablePair(input, a, w) {
        if Result(a, w) {
          ResultIsPair(a, w);
        }
        if AttachablePair(input, a, w) {
          PairIsResult(a, w);
        }
      }
    }

    lemma AcceptedIsResult()
      requires input.Valid() && HarmlessStarts(input) && forall a, w :: Result(a, w) <==> AttachablePair(input, a, w)
      ensures forall t, path :: AcceptedPlainly(input, t, path) ==> Result(t.arc, PairCost(input, t, path))
    {
      hide Attachable, PairCost, Result, ReadsPlainly;
      forall t, path | AcceptedPlainly(input, t, path) ensures Result(t.arc, PairCost(input, t, path)) {
        AcceptedAlike(input, t, path);
        HarmlessIsAttachable(input, t, path);
        assert AttachablePair(input, t.arc, PairCost(input, t, path));
      }
    }

    lemma ResultIsPair(a: nat, w: int)
      requires input.Valid() && Result(a, w) && forall z :: z in finalItems ==> z in chartWeight && Represents(z)
      ensures AttachablePair(input, a, w)
    {
      hide Covers, Accepted, Attachable, PairCost;
      var z :| z in finalItems && z in chartWeight && z.arc == a && chartWeight[z] <= w;
      var t, path :| Covers(input, z, t, path) && PairCost(input, t, path) == chartWeight[z];
      CoveredIffAttachable(input, t, path);
      CoveredRule(input, z, t, path);
    }

    lemma PairIsResult(a: nat, w: int)
      requires input.Valid() && AttachablePair(input, a, w) && LeastOfCovered()
      ensures Result(a, w)
    {
      hide Covers, Attachable, PairCost;
      var t, path :| Accepted(input, t, path) && Attachable(input, t, path) && t.arc == a
        && PairCost(input, t, path) <= w;
      CoveredIffAttachable(input, t, path);
      var z :| Covers(input, z, t, path);
      CoveredRule(input, z, t, path);
    }
  }

  lemma PairsAlike(p: Input, a: nat, w: int)
    ensures AttachablePair(p, a, w) <==> PlainPair(p, a, w)
  {
    hide Accepted, AcceptedPlainly, Attachable, PairCost;
    forall t, path ensures Accepted(p, t, path) <==> AcceptedPlainly(p, t, path) {
      AcceptedAlike(p, t, path);
    }
  }

  /** Some accepted pair with rule `a` at the root, its epsilons in place, costs at most `w`. */
  ghost predicate AttachablePair(p: Input, a: nat, w: int) {
    exists t, path :: Accepted(p, t, path) && Attachable(p, t, path) && t.arc == a && PairCost(p, t, path) <= w
  }
}
