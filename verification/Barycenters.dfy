/** What the barycenter of a node says about its edges: their weighted mean place, however they are counted. */
module Barycenters {
  import opened Graphs
  import opened Sums
  import opened CrossCount
  import opened ConflictResolution
  import opened Ordering

  /** The edges that end at v, or start there when the sweep goes up. */
  ghost function EdgesAt(E: set<Segment>, v: Node, down: bool): set<Segment> {
    if down then set e | e in E && e.w == v else set e | e in E && e.v == v
  }

  ghost function PlaceOf(order: map<Node, nat>, e: Segment, down: bool): int {
    var u := if down then e.v else e.w;
    if u in order then order[u] else 0
  }

  ghost function Weights(T: set<Segment>): int {
    Sum(T, (e: Segment) => e.weight)
  }

  /** Every place as often as the edges there weigh. */
  ghost function Places(T: set<Segment>, down: bool, order: map<Node, nat>): int {
    Sum(T, (e: Segment) => e.weight * PlaceOf(order, e, down))
  }

  /** The mean of the places over the weights, where there are edges and they weigh something. */
  ghost predicate IsMeanPlace(s: Option<Score>, T: set<Segment>, down: bool, order: map<Node, nat>) {
    && (s.None? <==> T == {})
    && (s.Some? ==> s.value.weight == Weights(T) as real && (s.value.barycenter.NaN? <==> Weights(T) == 0))
    && (s.Some? && s.value.barycenter.Num? ==>
        s.value.barycenter.r * Weights(T) as real == Places(T, down, order) as real)
  }

  lemma ScoreIsMean(E: set<Segment>, v: Node, down: bool, order: map<Node, nat>)
    ensures IsMeanPlace(ScoreFor(E, v, down, order), EdgesAt(E, v, down), down, order) == true
  {
    var T := EdgesAt(E, v, down);
    assert T == TiesOf(E, v, down);
    SumCong(T, (e: Segment) => e.weight, (e: Segment) => e.weight);
    SumCong(T, (e: Segment) => e.weight * OrderOf(order, FarEnd(e, down)),
            (e: Segment) => e.weight * PlaceOf(order, e, down));
    assert Weights(T) == TieWeight(T) && Places(T, down, order) == TiePull(T, down, order);
    if TieWeight(T) != 0 { QuotientTimes(TiePull(T, down, order) as real, TieWeight(T) as real); }
  }

  /** There is one mean only. */
  lemma MeanIsUnique(s: Option<Score>, s': Option<Score>, T: set<Segment>, T': set<Segment>, down: bool,
                     order: map<Node, nat>)
    requires IsMeanPlace(s, T, down, order) && IsMeanPlace(s', T', down, order) && (T == {} <==> T' == {})
    requires Weights(T) == Weights(T') && Places(T, down, order) == Places(T', down, order)
    ensures s == s'
  {
    if s.Some? && s.value.barycenter.Num? {
      SameQuotient(s.value.barycenter.r, s'.value.barycenter.r, Weights(T) as real);
    }
  }

  lemma NotZero(a: real, w: real)
    requires w != 0.0
    ensures a * w == 0.0 <==> a == 0.0
  {
  }

  lemma SameQuotient(a: real, b: real, w: real)
    requires w != 0.0 && a * w == b * w
    ensures a == b
  {
    NotZero(a - b, w);
  }

  /** The barycenter lies between the places of the neighbours. */
  lemma ScoreIsBetween(E: set<Segment>, v: Node, down: bool, order: map<Node, nat>, least: int, greatest: int)
    requires forall e :: e in EdgesAt(E, v, down) ==> e.weight >= 0 && least <= PlaceOf(order, e, down) <= greatest
    ensures
      var s := ScoreFor(E, v, down, order);
      s.Some? && s.value.barycenter.Num? ==> least as real <= s.value.barycenter.r <= greatest as real
  {
    var T, s := EdgesAt(E, v, down), ScoreFor(E, v, down, order);
    ScoreIsMean(E, v, down, order);
    WeightsBound(T, down, order, least, greatest);
    if s.Some? && s.value.barycenter.Num? {
      MeanIsBetween(s.value.barycenter.r, Weights(T), Places(T, down, order), least, greatest);
    }
  }

  lemma WeightsBound(T: set<Segment>, down: bool, order: map<Node, nat>, least: int, greatest: int)
    requires forall e :: e in T ==> e.weight >= 0 && least <= PlaceOf(order, e, down) <= greatest
    ensures Weights(T) >= 0 && least * Weights(T) <= Places(T, down, order) <= greatest * Weights(T)
  {
    var weight, place := (e: Segment) => e.weight, (e: Segment) => e.weight * PlaceOf(order, e, down);
    var low, high := (e: Segment) => least * e.weight, (e: Segment) => greatest * e.weight;
    forall e | e in T ensures low(e) <= place(e) <= high(e) {
      TimesMonotone(e.weight, least, PlaceOf(order, e, down));
      TimesMonotone(e.weight, PlaceOf(order, e, down), greatest);
    }
    SumNonNegative(T, weight);
    SumLinear(T, low, least, weight, 0, weight);
    SumLinear(T, high, greatest, weight, 0, weight);
    SumMonotone(T, low, place);
    SumMonotone(T, place, high);
    SumCong(T, weight, (e: Segment) => e.weight);
    SumCong(T, place, (e: Segment) => e.weight * PlaceOf(order, e, down));
  }

  lemma TimesMonotone(w: int, a: int, b: int)
    requires w >= 0 && a <= b
    ensures a * w <= b * w && w * a <= w * b
  {
  }

  lemma NotNegative(a: real, w: real)
    requires w > 0.0
    ensures a * w >= 0.0 <==> a >= 0.0
  {
  }

  lemma MeanIsBetween(r: real, W: int, P: int, least: int, greatest: int)
    requires W > 0 && r * W as real == P as real && least * W <= P <= greatest * W
    ensures least as real <= r <= greatest as real
  {
    assert (least * W) as real == least as real * W as real && (greatest * W) as real == greatest as real * W as real;
    NotNegative(r - least as real, W as real);
    NotNegative(greatest as real - r, W as real);
  }

  /** An edge may be split into parallel ones that weigh as much together: all scores stay. */
  lemma SplittingChangesNothing(E: set<Segment>, e: Segment, parts: set<Segment>, v: Node, down: bool,
                                order: map<Node, nat>)
    requires e in E && parts != {} && parts !! E && Weights(parts) == e.weight
    requires forall p :: p in parts ==> p.v == e.v && p.w == e.w
    ensures ScoreFor(E - {e} + parts, v, down, order) == ScoreFor(E, v, down, order)
  {
    var E' := E - {e} + parts;
    var T, T' := EdgesAt(E, v, down), EdgesAt(E', v, down);
    ScoreIsMean(E, v, down, order);
    ScoreIsMean(E', v, down, order);
    if e in T {
      assert T' == T - {e} + parts;
      SplitWeights(T, e, parts, down, order);
      assert parts <= T';
    } else {
      assert T' == T;
    }
    MeanIsUnique(ScoreFor(E, v, down, order), ScoreFor(E', v, down, order), T, T', down, order);
  }

  lemma SplitWeights(T: set<Segment>, e: Segment, parts: set<Segment>, down: bool, order: map<Node, nat>)
    requires e in T && parts !! T && Weights(parts) == e.weight
    requires forall p :: p in parts ==> p.v == e.v && p.w == e.w
    ensures Weights(T - {e} + parts) == Weights(T)
    ensures Places(T - {e} + parts, down, order) == Places(T, down, order)
  {
    var weight, place := (x: Segment) => x.weight, (x: Segment) => x.weight * PlaceOf(order, x, down);
    ByNames(T, down, order, weight, place);
    ByNames(parts, down, order, weight, place);
    ByNames(T - {e} + parts, down, order, weight, place);
    SameEnds(parts, e, down, order, weight, place);
    SplitSum(T, e, parts, weight);
    SplitSum(T, e, parts, place);
  }

  lemma SameEnds(parts: set<Segment>, e: Segment, down: bool, order: map<Node, nat>, weight: Segment -> int,
                 place: Segment -> int)
    requires forall p :: p in parts ==> p.v == e.v && p.w == e.w
    requires forall e :: weight(e) == e.weight && place(e) == e.weight * PlaceOf(order, e, down)
    ensures Sum(parts, place) == PlaceOf(order, e, down) * Sum(parts, weight)
  {
    var q := PlaceOf(order, e, down);
    forall x | x in parts ensures place(x) == q * weight(x) + 0 * weight(x) {
      Commute(x.weight, PlaceOf(order, x, down), q);
    }
    SumLinear(parts, place, q, weight, 0, weight);
  }

  lemma Commute(w: int, a: int, q: int)
    requires a == q
    ensures w * a == q * w + 0 * w
  {
  }

  lemma SplitSum(T: set<Segment>, e: Segment, parts: set<Segment>, f: Segment -> int)
    requires e in T && parts !! T && Sum(parts, f) == f(e)
    ensures Sum(T - {e} + parts, f) == Sum(T, f)
  {
    SumPick(T, f, e);
    SumUnion(T - {e}, parts, f);
  }

  lemma ByNames(T: set<Segment>, down: bool, order: map<Node, nat>, weight: Segment -> int, place: Segment -> int)
    requires forall e :: weight(e) == e.weight && place(e) == e.weight * PlaceOf(order, e, down)
    ensures Weights(T) == Sum(T, weight) && Places(T, down, order) == Sum(T, place)
  {
    SumCong(T, weight, (e: Segment) => e.weight);
    SumCong(T, place, (e: Segment) => e.weight * PlaceOf(order, e, down));
  }
}
