/**
 * The pairwise type coupling: a weighted mean of twelve per-relation terms
 * computed from counts the metric repository returns, and the enrichment
 * pass that stores every strictly positive coupling of a type and one of
 * its internal dependencies.
 *
 * Java doubles are modelled by reals. A quotient 0/0 is NaN in Java; it is
 * modelled by `NotANumber`. A positive count over a zero total would be
 * Infinity; the `Finite` precondition excludes it.
 */
module TypeCouplingEnricher {

  /** The repository's counting queries, as functions of type ids. */
  datatype Metrics = Metrics(
    countInvokes: (int, int) -> nat,
    countAllInvokesExternal: int -> nat,
    countInvokesStatic: (int, int) -> nat,
    countAllInvokesExternalStatic: int -> nat,
    typeExtends: (int, int) -> bool,
    typeImplements: (int, int) -> bool,
    countReturns: (int, int) -> nat,
    countParameterized: (int, int) -> nat,
    countMethods: int -> nat,
    countReads: (int, int) -> nat,
    countReadsExternal: int -> nat,
    countReadByExternal: int -> nat,
    countReadsStatic: (int, int) -> nat,
    countReadsStaticExternal: int -> nat,
    countReadByExternalStatic: int -> nat,
    countWrites: (int, int) -> nat,
    countWritesExternal: int -> nat,
    countWrittenByExternal: int -> nat,
    countWritesStatic: (int, int) -> nat,
    countWritesStaticExternal: int -> nat,
    countWrittenByExternalStatic: int -> nat,
    typeComposes: (int, int) -> bool,
    declaresInnerClass: (int, int) -> bool)

  /** The twelve relation weights. */
  datatype Weights = Weights(
    invokesWeight: real, invokesStaticWeight: real, extendsWeight: real, implementsWeight: real,
    returnsWeight: real, parameterWeight: real, readsWeight: real, readsStaticWeight: real,
    writesWeight: real, writesStaticWeight: real, composesWeight: real, innerClassesWeight: real)

  /** The weights in the order the coupling formula adds them up. */
  function WeightList(w: Weights): (ws: seq<real>)
    ensures |ws| == 12
  {
    [w.invokesWeight, w.invokesStaticWeight, w.extendsWeight, w.implementsWeight, w.returnsWeight, w.parameterWeight,
     w.readsWeight, w.readsStaticWeight, w.writesWeight, w.writesStaticWeight, w.composesWeight, w.innerClassesWeight]
  }

  predicate NonNegativeWeights(w: Weights)
  {
    forall i :: 0 <= i < 12 ==> WeightList(w)[i] >= 0.0
  }

  // ---------------------------------------------------------------------
  // Quotients with NaN
  // ---------------------------------------------------------------------

  /** A double that is either a number or NaN. */
  datatype Quotient = Value(v: real) | NotANumber

  /** A count over a total: the fraction of one direction of a relation. */
  datatype Share = Share(count: nat, total: nat)

  /** A share that is not a positive count over a zero total (which would be Infinity). */
  predicate FiniteShare(s: Share)
  {
    s.total == 0 ==> s.count == 0
  }

  /** The share as a double: NaN exactly for 0/0. */
  function Divide(s: Share): (q: Quotient)
    requires FiniteShare(s)
    ensures q.NotANumber? <==> s.total == 0
    ensures q.Value? ==> q.v >= 0.0 && q.v * s.total as real == s.count as real
  {
    if s.total == 0 then NotANumber else Value(s.count as real / s.total as real)
  }

  /** Double addition: NaN if either summand is NaN. */
  function Plus(a: Quotient, b: Quotient): (q: Quotient)
    ensures q.NotANumber? <==> a.NotANumber? || b.NotANumber?
    ensures q.Value? ==> q.v == a.v + b.v
  {
    if a.NotANumber? || b.NotANumber? then NotANumber else Value(a.v + b.v)
  }

  /** `Double.isNaN(res) ? 0 : res`. */
  function OrZero(q: Quotient): (r: real)
    ensures q.NotANumber? ==> r == 0.0
    ensures q.Value? ==> r == q.v
  {
    if q.NotANumber? then 0.0 else q.v
  }

  /**
   * A ratio term: the two directions' fractions added up, and the sum
   * replaced by 0 when it is NaN.
   */
  function RatioTerm(forward: Share, backward: Share): (t: real)
    requires FiniteShare(forward) && FiniteShare(backward)
    ensures t >= 0.0
  {
    OrZero(Plus(Divide(forward), Divide(backward)))
  }

  // ---------------------------------------------------------------------
  // The shares of the eight ratio terms
  // ---------------------------------------------------------------------

  function InvokesShare(m: Metrics, a: int, b: int): Share
  {
    Share(m.countInvokes(a, b), 2 * m.countAllInvokesExternal(a))
  }

  function InvokesStaticShare(m: Metrics, a: int, b: int): Share
  {
    Share(m.countInvokesStatic(a, b), 2 * m.countAllInvokesExternalStatic(a))
  }

  function ReturnsShare(m: Metrics, a: int, b: int): Share
  {
    Share(m.countReturns(a, b), 2 * m.countMethods(a))
  }

  function ParameterizedShare(m: Metrics, a: int, b: int): Share
  {
    Share(m.countParameterized(a, b), 2 * m.countMethods(a))
  }

  /** Field reads: the squared count over the reader's and the owner's external totals. */
  function ReadsShare(m: Metrics, a: int, b: int): Share
  {
    Share(m.countReads(a, b) * m.countReads(a, b), 2 * m.countReadsExternal(a) * m.countReadByExternal(b))
  }

  function ReadsStaticShare(m: Metrics, a: int, b: int): Share
  {
    Share(m.countReadsStatic(a, b) * m.countReadsStatic(a, b),
          2 * m.countReadsStaticExternal(a) * m.countReadByExternalStatic(b))
  }

  function WritesShare(m: Metrics, a: int, b: int): Share
  {
    Share(m.countWrites(a, b) * m.countWrites(a, b), 2 * m.countWritesExternal(a) * m.countWrittenByExternal(b))
  }

  function WritesStaticShare(m: Metrics, a: int, b: int): Share
  {
    Share(m.countWritesStatic(a, b) * m.countWritesStatic(a, b),
          2 * m.countWritesStaticExternal(a) * m.countWrittenByExternalStatic(b))
  }

  /** No ratio of the pair, in either direction, divides a positive count by zero. */
  predicate Finite(m: Metrics, a: int, b: int)
  {
    && FiniteShare(InvokesShare(m, a, b)) && FiniteShare(InvokesShare(m, b, a))
    && FiniteShare(InvokesStaticShare(m, a, b)) && FiniteShare(InvokesStaticShare(m, b, a))
    && FiniteShare(ReturnsShare(m, a, b)) && FiniteShare(ReturnsShare(m, b, a))
    && FiniteShare(ParameterizedShare(m, a, b)) && FiniteShare(ParameterizedShare(m, b, a))
    && FiniteShare(ReadsShare(m, a, b)) && FiniteShare(ReadsShare(m, b, a))
    && FiniteShare(ReadsStaticShare(m, a, b)) && FiniteShare(ReadsStaticShare(m, b, a))
    && FiniteShare(WritesShare(m, a, b)) && FiniteShare(WritesShare(m, b, a))
    && FiniteShare(WritesStaticShare(m, a, b)) && FiniteShare(WritesStaticShare(m, b, a))
  }

  // ---------------------------------------------------------------------
  // The twelve terms
  // ---------------------------------------------------------------------

  /**
   * What a ratio term is worth: 0 when either direction is 0/0 (NaN, which
   * discards the other direction too), otherwise the sum of the two
   * fractions; never negative.
   */
  predicate RatioOf(forward: Share, backward: Share, t: real)
  {
    && t >= 0.0
    && (forward.total == 0 || backward.total == 0 ==> t == 0.0)
    && (forward.total > 0 && backward.total > 0 ==>
          t == forward.count as real / forward.total as real + backward.count as real / backward.total as real)
  }

  function InvokesTerm(m: Metrics, a: int, b: int): (t: real)
    requires Finite(m, a, b)
    ensures RatioOf(InvokesShare(m, a, b), InvokesShare(m, b, a), t)
  {
    RatioTerm(InvokesShare(m, a, b), InvokesShare(m, b, a))
  }

  function InvokesStaticTerm(m: Metrics, a: int, b: int): (t: real)
    requires Finite(m, a, b)
    ensures RatioOf(InvokesStaticShare(m, a, b), InvokesStaticShare(m, b, a), t)
  {
    RatioTerm(InvokesStaticShare(m, a, b), InvokesStaticShare(m, b, a))
  }

  function Indicator(p: bool, value: real): real
  {
    if p then value else 0.0
  }

  /** One point for each direction in which one type extends the other. */
  function ExtendsTerm(m: Metrics, a: int, b: int): (t: real)
    ensures t == 0.0 || t == 1.0 || t == 2.0
    ensures t == 0.0 <==> !m.typeExtends(a, b) && !m.typeExtends(b, a)
    ensures t == 2.0 <==> m.typeExtends(a, b) && m.typeExtends(b, a)
  {
    Indicator(m.typeExtends(a, b), 1.0) + Indicator(m.typeExtends(b, a), 1.0)
  }

  /** One point for each direction in which one type implements the other. */
  function ImplementsTerm(m: Metrics, a: int, b: int): (t: real)
    ensures t == 0.0 || t == 1.0 || t == 2.0
    ensures t == 0.0 <==> !m.typeImplements(a, b) && !m.typeImplements(b, a)
    ensures t == 2.0 <==> m.typeImplements(a, b) && m.typeImplements(b, a)
  {
    Indicator(m.typeImplements(a, b), 1.0) + Indicator(m.typeImplements(b, a), 1.0)
  }

  function ReturnsTerm(m: Metrics, a: int, b: int): (t: real)
    requires Finite(m, a, b)
    ensures RatioOf(ReturnsShare(m, a, b), ReturnsShare(m, b, a), t)
  {
    RatioTerm(ReturnsShare(m, a, b), ReturnsShare(m, b, a))
  }

  function ParameterizedTerm(m: Metrics, a: int, b: int): (t: real)
    requires Finite(m, a, b)
    ensures RatioOf(ParameterizedShare(m, a, b), ParameterizedShare(m, b, a), t)
  {
    RatioTerm(ParameterizedShare(m, a, b), ParameterizedShare(m, b, a))
  }

  function ReadsTerm(m: Metrics, a: int, b: int): (t: real)
    requires Finite(m, a, b)
    ensures RatioOf(ReadsShare(m, a, b), ReadsShare(m, b, a), t)
  {
    RatioTerm(ReadsShare(m, a, b), ReadsShare(m, b, a))
  }

  function ReadsStaticTerm(m: Metrics, a: int, b: int): (t: real)
    requires Finite(m, a, b)
    ensures RatioOf(ReadsStaticShare(m, a, b), ReadsStaticShare(m, b, a), t)
  {
    RatioTerm(ReadsStaticShare(m, a, b), ReadsStaticShare(m, b, a))
  }

  function WritesTerm(m: Metrics, a: int, b: int): (t: real)
    requires Finite(m, a, b)
    ensures RatioOf(WritesShare(m, a, b), WritesShare(m, b, a), t)
  {
    RatioTerm(WritesShare(m, a, b), WritesShare(m, b, a))
  }

  function WritesStaticTerm(m: Metrics, a: int, b: int): (t: real)
    requires Finite(m, a, b)
    ensures RatioOf(WritesStaticShare(m, a, b), WritesStaticShare(m, b, a), t)
  {
    RatioTerm(WritesStaticShare(m, a, b), WritesStaticShare(m, b, a))
  }

  /**
   * Half a point twice, both times for `a` composing `b`: the reverse
   * direction is never consulted.
   */
  function ComposesTerm(m: Metrics, a: int, b: int): (t: real)
    ensures t == 0.0 || t == 1.0
    ensures t == 1.0 <==> m.typeComposes(a, b)
  {
    Indicator(m.typeComposes(a, b), 0.5) + Indicator(m.typeComposes(a, b), 0.5)
  }

  /** One point if either type declares the other as an inner class. */
  function InnerClassTerm(m: Metrics, a: int, b: int): (t: real)
    ensures t == 0.0 || t == 1.0
    ensures t == 1.0 <==> m.declaresInnerClass(a, b) || m.declaresInnerClass(b, a)
  {
    if m.declaresInnerClass(a, b) || m.declaresInnerClass(b, a) then 1.0 else 0.0
  }

  /** The twelve terms in the order the coupling formula weighs them. */
  function Terms(m: Metrics, a: int, b: int): (ts: seq<real>)
    requires Finite(m, a, b)
    ensures |ts| == 12
  {
    [InvokesTerm(m, a, b), InvokesStaticTerm(m, a, b), ExtendsTerm(m, a, b),
     ImplementsTerm(m, a, b), ReturnsTerm(m, a, b), ParameterizedTerm(m, a, b),
     ReadsTerm(m, a, b), ReadsStaticTerm(m, a, b), WritesTerm(m, a, b),
     WritesStaticTerm(m, a, b), ComposesTerm(m, a, b), InnerClassTerm(m, a, b)]
  }

  /** The position of the composes term among the twelve. */
  const ComposesIndex := 10

  // ---------------------------------------------------------------------
  // The weighted mean
  // ---------------------------------------------------------------------

  function Sum(ws: seq<real>): real
  {
    if ws == [] then 0.0 else ws[0] + Sum(ws[1..])
  }

  /** The weighted sum of `ts`, weight by weight. */
  function Dot(ws: seq<real>, ts: seq<real>): real
    requires |ws| == |ts|
  {
    if ws == [] then 0.0 else ws[0] * ts[0] + Dot(ws[1..], ts[1..])
  }

  /**
   * `computeCoupling`: the weighted sum of the twelve terms over the sum
   * of the twelve weights. With non-negative weights a zero total means
   * every weight is zero, so the quotient is 0/0, NaN, which becomes 0.
   */
  function Coupling(m: Metrics, w: Weights, a: int, b: int): (c: real)
    requires NonNegativeWeights(w) && Finite(m, a, b)
    ensures Sum(WeightList(w)) == 0.0 ==> c == 0.0
    ensures 0.0 <= c <= MaxOf(Terms(m, a, b))
  {
    var total := Sum(WeightList(w));
    var weighted := Dot(WeightList(w), Terms(m, a, b));
    var c := if total == 0.0 then 0.0 else weighted / total;
    TermsNonNegative(m, a, b);
    WeightedMean(WeightList(w), Terms(m, a, b), 0.0, MaxOf(Terms(m, a, b)), c);
    c
  }

  // ---------------------------------------------------------------------
  // Properties of the terms
  // ---------------------------------------------------------------------

  /** A 0/0 in either direction makes the whole ratio term 0, whatever the other direction holds. */
  lemma NaNZeroesRatioTerm(forward: Share, backward: Share)
    requires FiniteShare(forward) && FiniteShare(backward)
    ensures forward.total == 0 || backward.total == 0 ==> RatioTerm(forward, backward) == 0.0
    ensures forward.total > 0 && backward.total > 0 ==>
      RatioTerm(forward, backward) == forward.count as real / forward.total as real
                                      + backward.count as real / backward.total as real
  {
  }

  /** Swapping the directions of a ratio term does not change it. */
  lemma RatioTermSymmetric(forward: Share, backward: Share)
    requires FiniteShare(forward) && FiniteShare(backward)
    ensures RatioTerm(forward, backward) == RatioTerm(backward, forward)
  {
  }

  /** The finiteness condition does not depend on the order of the pair. */
  lemma FiniteSymmetric(m: Metrics, a: int, b: int)
    ensures Finite(m, a, b) <==> Finite(m, b, a)
  {
  }

  /** Every term is at least 0. */
  lemma TermsNonNegative(m: Metrics, a: int, b: int)
    requires Finite(m, a, b)
    ensures forall i :: 0 <= i < 12 ==> Terms(m, a, b)[i] >= 0.0
  {
  }

  /**
   * Swapping the pair changes no term but the composes term, which reads
   * only `typeComposes(a, b)`.
   */
  lemma TermsSymmetricButComposes(m: Metrics, a: int, b: int)
    requires Finite(m, a, b)
    ensures Finite(m, b, a)
    ensures forall i :: 0 <= i < 12 && i != ComposesIndex ==> Terms(m, a, b)[i] == Terms(m, b, a)[i]
    ensures Terms(m, a, b)[ComposesIndex] == 1.0 <==> m.typeComposes(a, b)
    ensures Terms(m, b, a)[ComposesIndex] == 1.0 <==> m.typeComposes(b, a)
  {
    RatioTermSymmetric(InvokesShare(m, a, b), InvokesShare(m, b, a));
    RatioTermSymmetric(InvokesStaticShare(m, a, b), InvokesStaticShare(m, b, a));
    RatioTermSymmetric(ReturnsShare(m, a, b), ReturnsShare(m, b, a));
    RatioTermSymmetric(ParameterizedShare(m, a, b), ParameterizedShare(m, b, a));
    RatioTermSymmetric(ReadsShare(m, a, b), ReadsShare(m, b, a));
    RatioTermSymmetric(ReadsStaticShare(m, a, b), ReadsStaticShare(m, b, a));
    RatioTermSymmetric(WritesShare(m, a, b), WritesShare(m, b, a));
    RatioTermSymmetric(WritesStaticShare(m, a, b), WritesStaticShare(m, b, a));
  }

  /**
   * The coupling of (a, b) and of (b, a) can differ only through the
   * composes term: when `typeComposes` agrees in both directions they are equal.
   */
  lemma CouplingSymmetric(m: Metrics, w: Weights, a: int, b: int)
    requires NonNegativeWeights(w) && Finite(m, a, b)
    requires m.typeComposes(a, b) == m.typeComposes(b, a)
    ensures Finite(m, b, a) && Coupling(m, w, a, b) == Coupling(m, w, b, a)
  {
    TermsSymmetricButComposes(m, a, b);
    var t1, t2 := Terms(m, a, b), Terms(m, b, a);
    assert t1[ComposesIndex] == t2[ComposesIndex];
    assert t1 == t2;
  }

  // ---------------------------------------------------------------------
  // Properties of the weighted mean
  // ---------------------------------------------------------------------

  lemma {:induction false} SumNonNegative(ws: seq<real>)
    requires forall i :: 0 <= i < |ws| ==> ws[i] >= 0.0
    ensures Sum(ws) >= 0.0
  {
    if ws != [] {
      SumNonNegative(ws[1..]);
    }
  }

  /** Non-negative weights that add up to 0 are all 0. */
  lemma {:induction false} ZeroSumAllZero(ws: seq<real>)
    requires forall i :: 0 <= i < |ws| ==> ws[i] >= 0.0
    requires Sum(ws) == 0.0
    ensures forall i :: 0 <= i < |ws| ==> ws[i] == 0.0
  {
    if ws != [] {
      SumNonNegative(ws[1..]);
      ZeroSumAllZero(ws[1..]);
      assert forall i :: 1 <= i < |ws| ==> ws[i] == ws[1..][i - 1];
    }
  }

  /** With all weights zero the weighted sum is zero. */
  lemma {:induction false} DotOfZeroWeights(ws: seq<real>, ts: seq<real>)
    requires |ws| == |ts|
    requires forall i :: 0 <= i < |ws| ==> ws[i] == 0.0
    ensures Dot(ws, ts) == 0.0
  {
    if ws != [] {
      DotOfZeroWeights(ws[1..], ts[1..]);
    }
  }

  lemma ScaleBelow(w: real, t: real, hi: real, p: real, q: real)
    requires w >= 0.0 && t <= hi && p == w * t && q == w * hi
    ensures p <= q
  {
  }

  lemma ScaleAbove(w: real, t: real, lo: real, p: real, q: real)
    requires w >= 0.0 && lo <= t && p == w * t && q == w * lo
    ensures q <= p
  {
  }

  lemma DistributeLeft(c: real, x: real, y: real)
    ensures c * (x + y) == c * x + c * y
  {
  }

  /** A weighted sum of values at most `hi` is at most `hi` times the weight total. */
  lemma {:induction false} DotUpper(ws: seq<real>, ts: seq<real>, hi: real)
    requires |ws| == |ts|
    requires forall i :: 0 <= i < |ws| ==> ws[i] >= 0.0 && ts[i] <= hi
    ensures Dot(ws, ts) <= hi * Sum(ws)
  {
    if ws != [] {
      DotUpper(ws[1..], ts[1..], hi);
      ScaleBelow(ws[0], ts[0], hi, ws[0] * ts[0], ws[0] * hi);
      DistributeLeft(hi, ws[0], Sum(ws[1..]));
    }
  }

  /** A weighted sum of values at least `lo` is at least `lo` times the weight total. */
  lemma {:induction false} DotLower(ws: seq<real>, ts: seq<real>, lo: real)
    requires |ws| == |ts|
    requires forall i :: 0 <= i < |ws| ==> ws[i] >= 0.0 && lo <= ts[i]
    ensures lo * Sum(ws) <= Dot(ws, ts)
  {
    if ws != [] {
      DotLower(ws[1..], ts[1..], lo);
      ScaleAbove(ws[0], ts[0], lo, ws[0] * ts[0], ws[0] * lo);
      DistributeLeft(lo, ws[0], Sum(ws[1..]));
    }
  }

  lemma QuotientBetween(x: real, total: real, lo: real, hi: real, q: real)
    requires total > 0.0 && lo * total <= x <= hi * total && q == x / total
    ensures lo <= q <= hi
  {
  }

  /**
   * The coupling is a weighted mean: when the weights are not all zero it
   * lies between any lower and any upper bound of the twelve terms; when
   * they are all zero it is 0.
   */
  lemma CouplingIsWeightedMean(m: Metrics, w: Weights, a: int, b: int, lo: real, hi: real)
    requires NonNegativeWeights(w) && Finite(m, a, b)
    requires forall i :: 0 <= i < 12 ==> lo <= Terms(m, a, b)[i] <= hi
    ensures Sum(WeightList(w)) == 0.0 ==> Coupling(m, w, a, b) == 0.0
    ensures Sum(WeightList(w)) != 0.0 ==> lo <= Coupling(m, w, a, b) <= hi
  {
    WeightedMean(WeightList(w), Terms(m, a, b), lo, hi, Coupling(m, w, a, b));
  }

  /** A weighted mean with non-negative weights lies between the bounds of its values. */
  lemma {:induction false} WeightedMean(ws: seq<real>, ts: seq<real>, lo: real, hi: real, c: real)
    requires |ws| == |ts|
    requires forall i :: 0 <= i < |ws| ==> ws[i] >= 0.0 && lo <= ts[i] <= hi
    requires c == if Sum(ws) == 0.0 then 0.0 else Dot(ws, ts) / Sum(ws)
    ensures Sum(ws) != 0.0 ==> lo <= c <= hi
  {
    SumNonNegative(ws);
    var total, weighted := Sum(ws), Dot(ws, ts);
    if total != 0.0 {
      DotUpper(ws, ts, hi);
      DotLower(ws, ts, lo);
      QuotientBetween(weighted, total, lo, hi, c);
    }
  }

  /** A zero weight total makes the weighted sum 0 as well, so the source's quotient is 0/0. */
  lemma ZeroWeightsZeroSum(m: Metrics, w: Weights, a: int, b: int)
    requires NonNegativeWeights(w) && Finite(m, a, b)
    requires Sum(WeightList(w)) == 0.0
    ensures Dot(WeightList(w), Terms(m, a, b)) == 0.0
  {
    ZeroSumAllZero(WeightList(w));
    DotOfZeroWeights(WeightList(w), Terms(m, a, b));
  }

  /** The largest of a non-empty list of reals. */
  function MaxOf(ts: seq<real>): (hi: real)
    requires ts != []
    ensures forall i :: 0 <= i < |ts| ==> ts[i] <= hi
    ensures exists i :: 0 <= i < |ts| && ts[i] == hi
  {
    if |ts| == 1 then ts[0]
    else
      var rest := MaxOf(ts[1..]);
      assert forall i :: 1 <= i < |ts| ==> ts[i] == ts[1..][i - 1];
      if ts[0] >= rest then ts[0] else rest
  }

  // ---------------------------------------------------------------------
  // enrich
  // ---------------------------------------------------------------------

  /** The pairs (type, internal dependency) the enrichment visits. */
  predicate Visited(types: seq<int>, dependencies: int -> seq<int>, t1: int, t2: int)
  {
    t1 in types && t2 in dependencies(t1)
  }

  /** A stored coupling is the pair's coupling, and strictly positive. */
  ghost predicate Correct(m: Metrics, w: Weights, stored: map<(int, int), real>)
  {
    forall t1, t2 :: (t1, t2) in stored ==>
      NonNegativeWeights(w) && Finite(m, t1, t2) &&
      stored[(t1, t2)] == Coupling(m, w, t1, t2) && stored[(t1, t2)] > 0.0
  }

  /** The pass has handled the types in `done`: exactly their positive couplings are stored. */
  ghost predicate EnrichedUpTo(m: Metrics, w: Weights, dependencies: int -> seq<int>, done: seq<int>,
                               stored: map<(int, int), real>)
  {
    && NonNegativeWeights(w)
    && (forall t1, t2 :: Visited(done, dependencies, t1, t2) ==> Finite(m, t1, t2))
    && Correct(m, w, stored)
    && (forall t1, t2 :: (t1, t2) in stored <==>
          Visited(done, dependencies, t1, t2) && Coupling(m, w, t1, t2) > 0.0)
  }

  /** The inner loop has handled the targets in `done`: their positive couplings are added to `before`. */
  ghost predicate EnrichedFrom(m: Metrics, w: Weights, id1: int, done: seq<int>,
                               before: map<(int, int), real>, stored: map<(int, int), real>)
  {
    && NonNegativeWeights(w)
    && (forall t2 :: t2 in done ==> Finite(m, id1, t2))
    && Correct(m, w, stored)
    && (forall t1, t2 :: (t1, t2) in stored <==>
          (t1, t2) in before || (t1 == id1 && t2 in done && Coupling(m, w, t1, t2) > 0.0))
  }

  /**
   * `enrich`: for every internal type and every internal dependency of it,
   * compute the coupling and store it only when it is strictly positive.
   * The returned map is what the run writes to the store.
   */
  method Enrich(m: Metrics, w: Weights, types: seq<int>, dependencies: int -> seq<int>)
    returns (stored: map<(int, int), real>)
    requires NonNegativeWeights(w)
    requires forall t1, t2 :: Visited(types, dependencies, t1, t2) ==> Finite(m, t1, t2)
    ensures forall t1, t2 :: (t1, t2) in stored <==>
      Visited(types, dependencies, t1, t2) && Coupling(m, w, t1, t2) > 0.0
    ensures forall t1, t2 :: (t1, t2) in stored ==> stored[(t1, t2)] == Coupling(m, w, t1, t2)
  {
    stored := map[];
    for i := 0 to |types|
      invariant EnrichedUpTo(m, w, dependencies, types[..i], stored)
    {
      var id1 := types[i];
      EnrichTypeReady(m, w, types, dependencies, i, stored);
      var next := EnrichType(m, w, id1, dependencies(id1), stored);
      EnrichedOneMore(m, w, types, dependencies, i, stored, next);
      stored := next;
    }
    assert types[..|types|] == types;
  }

  /** The preconditions of the inner loop for the next type. */
  lemma EnrichTypeReady(m: Metrics, w: Weights, types: seq<int>, dependencies: int -> seq<int>, i: int,
                        stored: map<(int, int), real>)
    requires 0 <= i < |types|
    requires forall t1, t2 :: Visited(types, dependencies, t1, t2) ==> Finite(m, t1, t2)
    requires EnrichedUpTo(m, w, dependencies, types[..i], stored)
    ensures forall t2 :: t2 in dependencies(types[i]) ==> Finite(m, types[i], t2)
    ensures Correct(m, w, stored)
  {
    forall t2 | t2 in dependencies(types[i]) ensures Finite(m, types[i], t2) {
      assert Visited(types, dependencies, types[i], t2);
    }
  }

  /** The inner loop's result for the next type moves the pass one type on. */
  lemma EnrichedOneMore(m: Metrics, w: Weights, types: seq<int>, dependencies: int -> seq<int>, i: int,
                        stored: map<(int, int), real>, next: map<(int, int), real>)
    requires 0 <= i < |types|
    requires forall t1, t2 :: Visited(types, dependencies, t1, t2) ==> Finite(m, t1, t2)
    requires EnrichedUpTo(m, w, dependencies, types[..i], stored)
    requires EnrichedFrom(m, w, types[i], dependencies(types[i]), stored, next)
    ensures EnrichedUpTo(m, w, dependencies, types[..i + 1], next)
  {
    assert types[..i + 1] == types[..i] + [types[i]];
    forall t1, t2 | Visited(types[..i + 1], dependencies, t1, t2) ensures Finite(m, t1, t2) {
      assert Visited(types, dependencies, t1, t2);
    }
  }

  /** The inner loop of `enrich`: the couplings of one type to its dependencies. */
  method EnrichType(m: Metrics, w: Weights, id1: int, targets: seq<int>, before: map<(int, int), real>)
    returns (stored: map<(int, int), real>)
    requires NonNegativeWeights(w)
    requires forall t2 :: t2 in targets ==> Finite(m, id1, t2)
    requires Correct(m, w, before)
    ensures EnrichedFrom(m, w, id1, targets, before, stored)
  {
    stored := before;
    for j := 0 to |targets|
      invariant EnrichedFrom(m, w, id1, targets[..j], before, stored)
    {
      var id2 := targets[j];
      var coupling := Coupling(m, w, id1, id2);
      EnrichedOneTarget(m, w, id1, targets[..j], before, stored, id2);
      if coupling > 0.0 {
        stored := stored[(id1, id2) := coupling];
      }
      assert targets[..j + 1] == targets[..j] + [id2];
    }
    assert targets[..|targets|] == targets;
  }

  /** Handling one more target keeps exactly the positive couplings. */
  lemma EnrichedOneTarget(m: Metrics, w: Weights, id1: int, done: seq<int>,
                          before: map<(int, int), real>, stored: map<(int, int), real>, id2: int)
    requires EnrichedFrom(m, w, id1, done, before, stored)
    requires Finite(m, id1, id2)
    ensures EnrichedFrom(m, w, id1, done + [id2], before,
                         if Coupling(m, w, id1, id2) > 0.0 then stored[(id1, id2) := Coupling(m, w, id1, id2)] else stored)
  {
  }
}
