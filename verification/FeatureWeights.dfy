/** Weights with sparse features, copied on write, and the expectation semiring they implement. */
module FeatureWeights {
  import opened PathSums

  type FeatureId = nat

  function Mul(a: real, b: real): real {
    a * b
  }

  /** A feature map, possibly shared between weights. */
  class FeatureMap {
    var m: map<FeatureId, real>

    constructor (m: map<FeatureId, real>)
      ensures this.m == m
    {
      this.m := m;
    }

    /** The value of a feature; one that is not stored has value zero. */
    function Get(id: FeatureId): real
      reads this
    {
      if id in m then m[id] else 0.0
    }

    /** Multiplies every stored value. */
    method Scale(c: real)
      modifies this
      ensures forall id :: Get(id) == Mul(c, old(Get(id)))
    {
      hide Mul;
      NothingTimes(c);
      var todo := m.Keys;
      ghost var m0 := m;
      while todo != {}
        invariant todo <= m.Keys == m0.Keys
        invariant forall id :: id in m0 ==> m[id] == if id in todo then m0[id] else Mul(c, m0[id])
        decreases todo
      {
        var id :| id in todo;
        m := m[id := Mul(c, m[id])];
        todo := todo - {id};
      }
    }

    /** Adds `c` times the values of `other`, one stored feature at a time. */
    method AddScaled(other: FeatureMap, c: real)
      requires other != this
      modifies this
      ensures forall id :: Get(id) == old(Get(id)) + Mul(c, other.Get(id))
    {
      hide Mul;
      NothingTimes(c);
      var todo := other.m.Keys;
      ghost var m0 := m;
      while todo != {}
        invariant todo <= other.m.Keys
        invariant forall id :: Get(id) == old(Get(id)) +
                    if id in other.m && id !in todo then Mul(c, other.m[id]) else 0.0
        decreases todo
      {
        var id :| id in todo;
        m := m[id := Get(id) + Mul(c, other.m[id])];
        todo := todo - {id};
      }
    }
  }

  lemma NothingTimes(c: real)
    ensures Mul(c, 0.0) == 0.0
  {
  }

  class FeatureWeight {
    var value: real
    var pMap: FeatureMap?

    constructor (value: real, pMap: FeatureMap?)
      ensures this.value == value && this.pMap == pMap
    {
      this.value, this.pMap := value, pMap;
    }

    /** What one sees of a feature through this weight. */
    function Get(id: FeatureId): real
      reads this, pMap
    {
      if pMap == null then 0.0 else pMap.Get(id)
    }

    predicate Empty()
      reads this, pMap
    {
      pMap == null || pMap.m == map[]
    }

    /** No other weight of `all` holds this map. */
    predicate Unique(all: set<FeatureWeight>)
      reads this, all
    {
      forall w :: w in all && w != this ==> w.pMap != pMap
    }

    /** Gives this weight a map of its own, copied unless it already is. */
    method OwnMap(all: set<FeatureWeight>)
      modifies this`pMap
      ensures pMap != null && Unique(all) && (fresh(pMap) || pMap == old(pMap))
      ensures old(pMap != null && Unique(all)) ==> pMap == old(pMap)
      ensures forall id :: Get(id) == pMap.Get(id) == old(Get(id))
    {
      if pMap == null {
        pMap := new FeatureMap(map[]);
      } else if !Unique(all) {
        pMap := new FeatureMap(pMap.m);
      }
    }
  }

  /** Every weight but `a` shows what it did. */
  twostate predicate OthersUnchanged(all: set<FeatureWeight>, a: FeatureWeight)
    reads all, set w | w in all :: w.pMap
  {
    forall w :: w in all && w != a ==> w.value == old(w.value) && forall id :: w.Get(id) == old(w.Get(id))
  }

  // ----- Expectation weights, in probability space -----

  /** A probability and the joint expectation of one feature. */
  datatype Joint = Joint(p: real, r: real)

  /** Either of two disjoint events. */
  function Either(a: Joint, b: Joint): Joint {
    Joint(a.p + b.p, a.r + b.r)
  }

  /** Both of two independent events. */
  function Both(a: Joint, b: Joint): Joint {
    Joint(a.p * b.p, a.p * b.r + b.p * a.r)
  }

  const EXPECTATION: Semiring<Joint> := Semiring(Joint(0.0, 0.0), Joint(1.0, 0.0), Either, Both)

  lemma TimesDistributes(a: Joint, b: Joint, c: Joint)
    ensures EXPECTATION.times(EXPECTATION.plus(a, b), c)
              == EXPECTATION.plus(EXPECTATION.times(a, c), EXPECTATION.times(b, c))
    ensures EXPECTATION.times(a, b) == EXPECTATION.times(b, a)
  {
    assert (a.p + b.p) * c.r == a.p * c.r + b.p * c.r;
    assert c.p * (a.r + b.r) == c.p * a.r + c.p * b.r;
  }

  /** The expectation semiring, whose product is commutative too. */
  lemma ExpectationIsLawful()
    ensures Lawful(EXPECTATION)
    ensures forall a, b :: EXPECTATION.times(a, b) == EXPECTATION.times(b, a)
  {
    forall a, b ensures EXPECTATION.times(a, b) == EXPECTATION.times(b, a) {
      TimesDistributes(a, b, a);
    }
    forall a, b, c
      ensures EXPECTATION.times(EXPECTATION.times(a, b), c)
              == EXPECTATION.times(a, EXPECTATION.times(b, c))
    {
    }
    forall a, b, c
      ensures EXPECTATION.times(EXPECTATION.plus(a, b), c)
                == EXPECTATION.plus(EXPECTATION.times(a, c), EXPECTATION.times(b, c))
    {
      TimesDistributes(a, b, c);
    }
    forall a, b, c
      ensures EXPECTATION.times(c, EXPECTATION.plus(a, b))
                == EXPECTATION.plus(EXPECTATION.times(c, a), EXPECTATION.times(c, b))
    {
      TimesDistributes(a, b, c);
      TimesDistributes(EXPECTATION.plus(a, b), c, c);
      TimesDistributes(a, c, c);
      TimesDistributes(b, c, c);
    }
  }

  /** When adding is what the semiring says: an impossible event that is skipped has nothing to add. */
  predicate AddsUp(a: Joint, b: Joint) {
    if b.p == 0.0 then b.r == 0.0 else a.p == 0.0 ==> a.r == 0.0
  }

  /** The same for multiplying. */
  predicate Multiplies(a: Joint, b: Joint) {
    if a.p == 0.0 then a.r == 0.0 || b.p == 1.0 else b.p == 0.0 ==> b.r == 0.0
  }

  function Seen(w: FeatureWeight, id: FeatureId): Joint
    reads w, w.pMap
  {
    Joint(w.value, w.Get(id))
  }

  /** A probability; an impossible event has no features. */
  ghost predicate Proper(w: FeatureWeight)
    reads w, w.pMap
  {
    w.value >= 0.0 && (w.value == 0.0 ==> forall id :: w.Get(id) == 0.0)
  }

  /** Adds `b` to `a`, feature by feature, whatever the two share: for a feature on which the impossible
      one of the two, if one is, has no expectation; and only for such. */
  method PlusBy(a: FeatureWeight, b: FeatureWeight, all: set<FeatureWeight>)
    requires a in all && b in all && a.value >= 0.0 && b.value >= 0.0
    modifies a, a.pMap
    ensures forall id :: Seen(a, id) == Either(old(Seen(a, id)), old(Seen(b, id))) <==>
              old(AddsUp(Seen(a, id), Seen(b, id)))
    ensures old(Proper(a) && Proper(b)) ==> Proper(a)
    ensures OthersUnchanged(all, a)
  {
    if b.value == 0.0 {
    } else if a.value == 0.0 {
      a.value, a.pMap := b.value, b.pMap;
    } else if a == b {
      a.value := a.value * 2.0;
      if a.pMap != null {
        a.OwnMap(all);
        a.pMap.Scale(2.0);
        assert forall id :: a.Get(id) == a.pMap.Get(id) == Mul(2.0, old(a.Get(id)));
      }
    } else {
      a.value := a.value + b.value;
      if a.pMap == b.pMap {
        assert forall id :: b.Get(id) == old(a.Get(id)) == old(b.Get(id));
        if a.pMap != null {
          a.OwnMap(all);
          a.pMap.Scale(2.0);
          assert forall id :: a.Get(id) == a.pMap.Get(id) == Mul(2.0, old(a.Get(id)));
        }
      } else if !b.Empty() {
        a.OwnMap(all);
        a.pMap.AddScaled(b.pMap, 1.0);
      }
    }
  }

  /** The condition is needed: what an impossible weight carries is lost in a sum. */
  method ImpossibleIsDropped() returns (sum: Joint)
    ensures !AddsUp(Joint(0.5, 0.0), Joint(0.0, 3.0)) && sum != Either(Joint(0.5, 0.0), Joint(0.0, 3.0))
  {
    var features := new FeatureMap(map[1 := 3.0]);
    var a := new FeatureWeight(0.5, null);
    var b := new FeatureWeight(0.0, features);
    PlusBy(a, b, {a, b});
    sum := Seen(a, 1);
  }

  lemma PositiveProduct(a: real, b: real)
    requires a > 0.0 && b > 0.0
    ensures Mul(a, b) > 0.0
  {
  }

  lemma BothSame(p: real, q: real, r: real)
    ensures Both(Joint(p, r), Joint(q, r)) == Joint(Mul(p, q), Mul(p + q, r))
  {
  }

  /** What the early returns do to one feature, and when that is the product. */
  lemma BothEasy(a: Joint, b: Joint)
    ensures EasyProduct(a, b)
  {
    if a.p == 0.0 {
      assert b.p * a.r == a.r <==> a.r == 0.0 || b.p == 1.0;
    } else if b.p == 0.0 {
      assert a.p * b.r == 0.0 <==> b.r == 0.0;
    }
  }

  /** Multiplies `a` by `b`, feature by feature, whatever the two share: under the same kind of condition. */
  method TimesBy(a: FeatureWeight, b: FeatureWeight, all: set<FeatureWeight>)
    requires a in all && b in all && a.value >= 0.0 && b.value >= 0.0
    modifies a, a.pMap
    ensures forall id :: Seen(a, id) == Both(old(Seen(a, id)), old(Seen(b, id))) <==>
              old(Multiplies(Seen(a, id), Seen(b, id)))
    ensures old(Proper(a) && Proper(b)) ==> Proper(a)
    ensures OthersUnchanged(all, a)
  {
    hide Both, Multiplies;
    forall id ensures EasyProduct(Seen(a, id), Seen(b, id)) {
      BothEasy(Seen(a, id), Seen(b, id));
    }
    if a.value == 0.0 {
    } else if b.value == 0.0 {
      a.value, a.pMap := 0.0, null;
    } else if b.value == 1.0 && b.Empty() {
    } else if a.value == 1.0 && a.Empty() {
      a.value, a.pMap := b.value, b.pMap;
    } else {
      Multiply(a, b, all);
    }
  }

  /** And in a product it is not multiplied. */
  method ImpossibleIsKept() returns (product: Joint)
    ensures !Multiplies(Joint(0.0, 3.0), Joint(0.5, 0.0)) && product != Both(Joint(0.0, 3.0), Joint(0.5, 0.0))
  {
    var features := new FeatureMap(map[1 := 3.0]);
    var a := new FeatureWeight(0.0, features);
    var b := new FeatureWeight(0.5, null);
    TimesBy(a, b, {a, b});
    product := Seen(a, 1);
  }

  ghost predicate EasyProduct(a: Joint, b: Joint) {
    && (a.p == 0.0 ==> (a == Both(a, b) <==> Multiplies(a, b)))
    && (a.p != 0.0 && b.p == 0.0 ==> (Joint(0.0, 0.0) == Both(a, b) <==> Multiplies(a, b)))
    && (b == Joint(1.0, 0.0) ==> Both(a, b) == a && (a.p != 0.0 ==> Multiplies(a, b)))
    && (a == Joint(1.0, 0.0) ==> Both(a, b) == b && (b.p != 0.0 ==> Multiplies(a, b)))
    && (a.p != 0.0 && b.p != 0.0 ==> Multiplies(a, b))
  }

  /** Two weights neither of which is zero or one. */
  method Multiply(a: FeatureWeight, b: FeatureWeight, all: set<FeatureWeight>)
    requires a in all && b in all && a.value > 0.0 && b.value > 0.0
    modifies a, a.pMap
    ensures forall id :: Seen(a, id) == Both(old(Seen(a, id)), old(Seen(b, id)))
    ensures a.value > 0.0 && OthersUnchanged(all, a)
  {
    hide Both, Mul;
    var aval, bval := a.value, b.value;
    PositiveProduct(aval, bval);
    a.value := Mul(aval, bval);
    if a.pMap == b.pMap {
      assert forall id :: old(b.Get(id)) == old(a.Get(id));
      a.OwnMap(all);
      a.pMap.Scale(aval + bval);
      assert forall id :: a.Get(id) == a.pMap.Get(id) == Mul(aval + bval, old(a.Get(id)));
      forall id ensures Seen(a, id) == Both(old(Seen(a, id)), old(Seen(b, id))) {
        BothSame(aval, bval, old(a.Get(id)));
      }
    } else {
      a.OwnMap(all);
      a.pMap.Scale(bval);
      assert forall id :: a.Get(id) == a.pMap.Get(id) == Mul(bval, old(a.Get(id)));
      if !b.Empty() {
        a.pMap.AddScaled(b.pMap, aval);
      }
      NothingTimes(aval);
      assert forall id :: a.Get(id) == a.pMap.Get(id) == Mul(bval, old(a.Get(id))) + Mul(aval, old(b.Get(id)));
      forall id ensures Seen(a, id) == Both(old(Seen(a, id)), old(Seen(b, id))) {
        BothApart(aval, bval, old(a.Get(id)), old(b.Get(id)));
      }
    }
  }

  lemma BothApart(p: real, q: real, r: real, s: real)
    ensures Both(Joint(p, r), Joint(q, s)) == Joint(Mul(p, q), Mul(q, r) + Mul(p, s))
  {
  }

  /** Between proper weights both are right for every feature. */
  lemma ProperIsRight(w1: FeatureWeight, w2: FeatureWeight)
    requires Proper(w1) && Proper(w2)
    ensures forall id :: AddsUp(Seen(w1, id), Seen(w2, id)) && Multiplies(Seen(w1, id), Seen(w2, id))
  {
    forall id ensures AddsUp(Seen(w1, id), Seen(w2, id)) && Multiplies(Seen(w1, id), Seen(w2, id)) {
      assert w1.value == 0.0 ==> w1.Get(id) == 0.0;
    }
  }

  /** The sum as a new weight, for the features that adding up is right for; neither summand changes. */
  method Plus(w1: FeatureWeight, w2: FeatureWeight, all: set<FeatureWeight>) returns (w3: FeatureWeight)
    requires w1 in all && w2 in all && w1.value >= 0.0 && w2.value >= 0.0
    ensures fresh(w3)
    ensures forall id :: Seen(w3, id) == Either(Seen(w1, id), Seen(w2, id)) <==> AddsUp(Seen(w1, id), Seen(w2, id))
    ensures Proper(w1) && Proper(w2) ==> Proper(w3) && forall id :: Seen(w3, id) == Either(Seen(w1, id), Seen(w2, id))
  {
    hide Either, AddsUp;
    if Proper(w1) && Proper(w2) {
      ProperIsRight(w1, w2);
    }
    w3 := Copied(w1);
    assert forall id :: Seen(w3, id) == Seen(w1, id);
    PlusBy(w3, w2, all + {w3});
  }

  /** The product as a new weight, on the same terms. */
  method Times(w1: FeatureWeight, w2: FeatureWeight, all: set<FeatureWeight>) returns (w3: FeatureWeight)
    requires w1 in all && w2 in all && w1.value >= 0.0 && w2.value >= 0.0
    ensures fresh(w3)
    ensures forall id :: Seen(w3, id) == Both(Seen(w1, id), Seen(w2, id)) <==> Multiplies(Seen(w1, id), Seen(w2, id))
    ensures Proper(w1) && Proper(w2) ==> Proper(w3) && forall id :: Seen(w3, id) == Both(Seen(w1, id), Seen(w2, id))
  {
    hide Both, Multiplies;
    if Proper(w1) && Proper(w2) {
      ProperIsRight(w1, w2);
    }
    w3 := Copied(w1);
    assert forall id :: Seen(w3, id) == Seen(w1, id);
    TimesBy(w3, w2, all + {w3});
  }

  /** A copy that has a map of its own from the start. */
  method Copied(w: FeatureWeight) returns (c: FeatureWeight)
    ensures fresh(c) && c.pMap != null && fresh(c.pMap) && c.value == w.value
    ensures forall id :: c.Get(id) == w.Get(id)
  {
    var pMap := new FeatureMap(if w.pMap == null then map[] else w.pMap.m);
    c := new FeatureWeight(w.value, pMap);
  }

  // ----- Viterbi-like weights: costs add, and so do features -----

  method TakeMinTimesBy(a: FeatureWeight, b: FeatureWeight, all: set<FeatureWeight>)
    requires a in all && b in all
    modifies a, a.pMap
    ensures a.value == old(a.value) + old(b.value)
    ensures forall id :: a.Get(id) == old(a.Get(id)) + old(b.Get(id))
    ensures OthersUnchanged(all, a)
  {
    a.value := a.value + b.value;
    if b.Empty() {
    } else if a.Empty() {
      a.pMap := b.pMap;
    } else if a.pMap == b.pMap {
      assert forall id :: old(b.Get(id)) == old(a.Get(id));
      a.OwnMap(all);
      a.pMap.Scale(2.0);
      assert forall id :: a.Get(id) == a.pMap.Get(id) == Mul(2.0, old(a.Get(id)));
    } else {
      a.OwnMap(all);
      a.pMap.AddScaled(b.pMap, 1.0);
    }
  }
}
