/**
 * The multi-objective chromosome of the evolutionary partitioner: one
 * component label (allele) per entity position, grouped into buckets, five
 * objectives computed from the buckets and Pareto dominance over them.
 *
 * The per-component cohesion, the pairwise coupling and the coupling
 * normalisation are abstract in the source; here they are function-typed
 * constants of the chromosome, fixed when it is created.
 */
module LongObjectiveChromosome {
  import opened Aggregates

  /** The five objective values; for every one of them larger is better. */
  datatype Objectives = Objectives(
    cohesion: real,
    coupling: real,
    componentSize: real,
    componentRange: real,
    componentCount: real)

  /** The value every objective field holds before evaluation. */
  const Unevaluated := Objectives(0.0, 0.0, 0.0, 0.0, 0.0)

  // ---------------------------------------------------------------------
  // Pareto dominance
  // ---------------------------------------------------------------------

  /** One comparison of `dominates`: -1 worse, 0 equal, 1 better. */
  function Verdict(mine: real, theirs: real): int
  {
    if mine < theirs then -1 else if mine == theirs then 0 else 1
  }

  /** The verdicts in the order `dominates` compares the objectives. */
  function Verdicts(a: Objectives, b: Objectives): seq<int>
  {
    [Verdict(a.cohesion, b.cohesion),
     Verdict(a.coupling, b.coupling),
     Verdict(a.componentSize, b.componentSize),
     Verdict(a.componentCount, b.componentCount),
     Verdict(a.componentRange, b.componentRange)]
  }

  /** `a` is at least as good as `b` on every objective. */
  predicate NoWorse(a: Objectives, b: Objectives)
  {
    a.cohesion >= b.cohesion && a.coupling >= b.coupling &&
    a.componentSize >= b.componentSize && a.componentRange >= b.componentRange &&
    a.componentCount >= b.componentCount
  }

  /** `a` is strictly better than `b` on some objective. */
  predicate SomeBetter(a: Objectives, b: Objectives)
  {
    a.cohesion > b.cohesion || a.coupling > b.coupling ||
    a.componentSize > b.componentSize || a.componentRange > b.componentRange ||
    a.componentCount > b.componentCount
  }

  /** 1 for the verdict `x`, 0 for any other verdict. */
  function Tally(v: int, x: int): nat
  {
    if v == x then 1 else 0
  }

  /**
   * `dominates`: count the better, equal and worse verdicts; `a` dominates
   * `b` when some verdict is better and none is worse.
   */
  function ParetoDominates(a: Objectives, b: Objectives): (d: bool)
    ensures d <==> NoWorse(a, b) && SomeBetter(a, b)
  {
    var v := Verdicts(a, b);
    var better := Tally(v[0], 1) + Tally(v[1], 1) + Tally(v[2], 1) + Tally(v[3], 1) + Tally(v[4], 1);
    var worse := Tally(v[0], -1) + Tally(v[1], -1) + Tally(v[2], -1) + Tally(v[3], -1) + Tally(v[4], -1);
    better > 0 && worse == 0
  }

  /** No objective vector dominates itself. */
  lemma DominatesIrreflexive(a: Objectives)
    ensures !ParetoDominates(a, a)
  {
  }

  /** Dominance never holds in both directions. */
  lemma DominatesAsymmetric(a: Objectives, b: Objectives)
    ensures ParetoDominates(a, b) ==> !ParetoDominates(b, a)
  {
  }

  /** Dominance is transitive. */
  lemma DominatesTransitive(a: Objectives, b: Objectives, c: Objectives)
    ensures ParetoDominates(a, b) && ParetoDominates(b, c) ==> ParetoDominates(a, c)
  {
    if ParetoDominates(a, b) && ParetoDominates(b, c) {
      assert NoWorse(a, c);
      assert SomeBetter(a, c);
    }
  }

  // ---------------------------------------------------------------------
  // Grouping genes into buckets
  // ---------------------------------------------------------------------

  /** The `merge` step: add `x` to the bucket of `allele`, creating it if absent. */
  function Merge(buckets: map<int, set<int>>, allele: int, x: int): (r: map<int, set<int>>)
    ensures r.Keys == buckets.Keys + {allele}
    ensures r[allele] == (if allele in buckets then buckets[allele] else {}) + {x}
    ensures forall a :: a in buckets && a != allele ==> r[a] == buckets[a]
  {
    if allele in buckets then buckets[allele := buckets[allele] + {x}]
    else buckets[allele := {x}]
  }

  /**
   * The buckets of a chromosome: for every allele that occurs, the ids at
   * the positions holding that allele.
   */
  function Grouping(genes: seq<int>, ids: seq<int>): (g: map<int, set<int>>)
    requires |genes| <= |ids|
    ensures forall a :: a in g <==> a in genes
    ensures forall i :: 0 <= i < |genes| ==> genes[i] in g && ids[i] in g[genes[i]]
  {
    var g := map a | a in genes :: Bucket(genes, ids, a);
    assert forall i :: 0 <= i < |genes| ==> genes[i] in genes && ids[i] in Bucket(genes, ids, genes[i]);
    g
  }

  /** The ids at the positions holding allele `a`. */
  function Bucket(genes: seq<int>, ids: seq<int>, a: int): set<int>
    requires |genes| <= |ids|
  {
    set i | 0 <= i < |genes| && genes[i] == a :: ids[i]
  }

  /** One more position adds its id to the bucket of its allele only. */
  lemma BucketStep(genes: seq<int>, ids: seq<int>, i: nat, a: int)
    requires i < |genes| <= |ids|
    ensures Bucket(genes[..i + 1], ids[..i + 1], a)
         == Bucket(genes[..i], ids[..i], a) + (if genes[i] == a then {ids[i]} else {})
  {
    var after := Bucket(genes[..i + 1], ids[..i + 1], a);
    var before := Bucket(genes[..i], ids[..i], a);
    var added := if genes[i] == a then {ids[i]} else {};
    forall x | x in after
      ensures x in before + added
    {
      var j :| 0 <= j < i + 1 && genes[..i + 1][j] == a && ids[..i + 1][j] == x;
      if j < i {
        assert genes[..i][j] == a && ids[..i][j] == x;
      }
    }
    forall x | x in before + added
      ensures x in after
    {
      if x in before {
        var j :| 0 <= j < i && genes[..i][j] == a && ids[..i][j] == x;
        assert genes[..i + 1][j] == a && ids[..i + 1][j] == x;
      } else {
        assert genes[..i + 1][i] == a && ids[..i + 1][i] == x;
      }
    }
  }

  /** Grouping one more position is one `merge` step. */
  lemma GroupingStep(genes: seq<int>, ids: seq<int>, i: nat)
    requires i < |genes| <= |ids|
    ensures Grouping(genes[..i + 1], ids[..i + 1]) == Merge(Grouping(genes[..i], ids[..i]), genes[i], ids[i])
  {
    var before := Grouping(genes[..i], ids[..i]);
    var after := Grouping(genes[..i + 1], ids[..i + 1]);
    var merged := Merge(before, genes[i], ids[i]);
    assert forall a :: a in genes[..i + 1] <==> a in genes[..i] || a == genes[i] by {
      assert genes[..i + 1] == genes[..i] + [genes[i]];
    }
    assert after.Keys == merged.Keys;
    forall a | a in after
      ensures after[a] == merged[a]
    {
      BucketStep(genes, ids, i, a);
      if a !in before {
        forall j | 0 <= j < i
          ensures genes[..i][j] != a
        {
          assert genes[..i][j] in genes[..i];
        }
        assert Bucket(genes[..i], ids[..i], a) == {};
      }
    }
  }

  /** The values of a sequence: a set no larger than the sequence. */
  lemma {:induction false} ValuesBound(s: seq<int>)
    ensures |set x | x in s| <= |s|
  {
    if s != [] {
      var init := s[..|s| - 1];
      ValuesBound(init);
      assert (set x | x in s) == (set x | x in init) + {s[|s| - 1]} by {
        assert s == init + [s[|s| - 1]];
      }
    }
  }

  /** The ids are pairwise distinct. */
  predicate Distinct(ids: seq<int>)
  {
    forall i, j :: 0 <= i < j < |ids| ==> ids[i] != ids[j]
  }

  /**
   * The buckets partition the ids: the id at position i is in the bucket of
   * gene i's allele and of no other, every bucket member comes from a
   * position holding that allele, the buckets cover the ids exactly, no
   * bucket is empty, and (for distinct ids) the buckets are pairwise
   * disjoint.
   */
  lemma GroupingPartitionsIds(genes: seq<int>, ids: seq<int>)
    requires |genes| == |ids|
    ensures var b := Grouping(genes, ids);
      && b.Keys == (set a | a in genes)
      && (forall i :: 0 <= i < |genes| ==> genes[i] in b && ids[i] in b[genes[i]])
      && (forall a, x :: a in b && x in b[a] ==> exists i :: 0 <= i < |genes| && genes[i] == a && ids[i] == x)
      && (forall x :: x in ids <==> exists a :: a in b && x in b[a])
      && (forall a :: a in b ==> b[a] != {})
      && (Distinct(ids) ==> forall a1, a2 :: a1 in b && a2 in b && a1 != a2 ==> b[a1] !! b[a2])
      && (Distinct(ids) ==> forall i, a :: 0 <= i < |genes| && a in b && ids[i] in b[a] ==> a == genes[i])
  {
    var b := Grouping(genes, ids);
    forall x | x in ids
      ensures exists a :: a in b && x in b[a]
    {
      var i :| 0 <= i < |ids| && ids[i] == x;
      assert genes[i] in genes;
      assert x in b[genes[i]];
    }
    forall a | a in b
      ensures b[a] != {}
    {
      var i :| 0 <= i < |genes| && genes[i] == a;
      assert ids[i] in b[a];
    }
  }

  /** There are at most n buckets and each holds at most n ids. */
  lemma GroupingSizes(genes: seq<int>, ids: seq<int>)
    requires |genes| == |ids|
    ensures var b := Grouping(genes, ids);
      && |b| <= |genes|
      && (forall a :: a in b ==> 1 <= |b[a]| <= |ids|)
      && (|genes| > 0 ==> |b| > 0 && b.Keys != {})
  {
    var b := Grouping(genes, ids);
    GroupingPartitionsIds(genes, ids);
    ValuesBound(genes);
    ValuesBound(ids);
    assert b.Keys == (set a | a in genes);
    assert |b| == |b.Keys|;
    forall a | a in b
      ensures |b[a]| <= |ids|
    {
      forall x | x in b[a]
        ensures x in (set y | y in ids)
      {
        var i :| 0 <= i < |genes| && genes[i] == a && ids[i] == x;
        assert ids[i] in ids;
      }
      SubsetCard(b[a], set x | x in ids);
    }
    if |genes| > 0 {
      assert genes[0] in b.Keys;
    }
  }

  // ---------------------------------------------------------------------
  // The five objectives as functions of the buckets
  // ---------------------------------------------------------------------

  /** The cohesion of the bucket with key `k` (0 outside the map). */
  function BucketCohesion(b: map<int, set<int>>, coh: set<int> -> real, k: int): real
  {
    if k in b then coh(b[k]) else 0.0
  }

  /** The coupling from bucket `k1` to bucket `k2` (0 outside the map). */
  function BucketCoupling(b: map<int, set<int>>, cpl: (set<int>, set<int>) -> real, k1: int, k2: int): real
  {
    if k1 in b && k2 in b then cpl(b[k1], b[k2]) else 0.0
  }

  /** Bucket key to bucket cohesion. */
  function CohesionOf(b: map<int, set<int>>, coh: set<int> -> real): int -> real
  {
    k => BucketCohesion(b, coh, k)
  }

  /** Bucket key to the coupling from bucket `k1` to it. */
  function CouplingFrom(b: map<int, set<int>>, cpl: (set<int>, set<int>) -> real, k1: int): int -> real
  {
    k2 => BucketCoupling(b, cpl, k1, k2)
  }

  /** The sum of the per-bucket cohesion values. */
  ghost function CohesionTotal(b: map<int, set<int>>, coh: set<int> -> real): real
  {
    SumOver(b.Keys, CohesionOf(b, coh))
  }

  /** Some bucket has cohesion 0: the chromosome is invalid. */
  ghost predicate Degenerate(b: map<int, set<int>>, coh: set<int> -> real)
  {
    exists k :: k in b && coh(b[k]) == 0.0
  }

  /** The coupling from bucket `k1` to every other bucket. */
  ghost function OutgoingCoupling(b: map<int, set<int>>, cpl: (set<int>, set<int>) -> real, k1: int): real
  {
    SumOver(b.Keys - {k1}, CouplingFrom(b, cpl, k1))
  }

  /** Bucket key to its outgoing coupling. */
  ghost function OutgoingOf(b: map<int, set<int>>, cpl: (set<int>, set<int>) -> real): int -> real
  {
    k1 => OutgoingCoupling(b, cpl, k1)
  }

  /** The coupling summed over all ordered pairs of distinct buckets. */
  ghost function PairCoupling(b: map<int, set<int>>, cpl: (set<int>, set<int>) -> real): real
  {
    SumOver(b.Keys, OutgoingOf(b, cpl))
  }

  /** The size of the smallest bucket. */
  ghost function MinSize(b: map<int, set<int>>): (m: nat)
    requires b.Keys != {}
    ensures exists k :: k in b && |b[k]| == m
    ensures forall k :: k in b ==> m <= |b[k]|
    decreases b.Keys
  {
    var k := Choose(b.Keys);
    var rest := b - {k};
    assert forall j :: j in b && j != k ==> j in rest && rest[j] == b[j];
    if rest.Keys == {} then assert b.Keys == {k}; |b[k]|
    else
      var m := MinSize(rest);
      if |b[k]| <= m then |b[k]| else m
  }

  /** The size of the largest bucket. */
  ghost function MaxSize(b: map<int, set<int>>): (m: nat)
    requires b.Keys != {}
    ensures exists k :: k in b && |b[k]| == m
    ensures forall k :: k in b ==> |b[k]| <= m
    decreases b.Keys
  {
    var k := Choose(b.Keys);
    var rest := b - {k};
    assert forall j :: j in b && j != k ==> j in rest && rest[j] == b[j];
    if rest.Keys == {} then assert b.Keys == {k}; |b[k]|
    else
      var m := MaxSize(rest);
      if |b[k]| >= m then |b[k]| else m
  }

  /** The keys of the one-member buckets. */
  function Singletons(b: map<int, set<int>>): set<int>
  {
    set k | k in b && |b[k]| == 1
  }

  /**
   * The component-count objective for k buckets over n ids: rising
   * linearly to 1 at k = n/4, then falling linearly to 0 at k = n.
   */
  function CountObjective(k: nat, n: nat): (r: real)
    requires n > 0
    ensures k == 0 || k == n ==> r == 0.0
  {
    if k as real <= 0.25 * n as real then k as real / (n as real / 4.0)
    else (n - k) as real / (0.75 * n as real)
  }

  /** The component-range objective: the size spread, negated, over n - 1 ids. */
  function RangeObjective(minSize: nat, maxSize: nat, n: nat): (r: real)
    requires n >= 2
    ensures minSize == maxSize ==> r == 0.0
    ensures minSize < maxSize ==> r < 0.0
  {
    (minSize - maxSize) as real / (n - 1) as real
  }

  /** The component-size objective: minus the share of one-member buckets among k. */
  function SizeObjective(singletons: nat, k: nat): (r: real)
    requires k > 0
    ensures singletons == 0 ==> r == 0.0
    ensures singletons == k ==> r == -1.0
  {
    -(singletons as real) / k as real
  }

  /** The objectives `evaluate` computes, and whether it flags the chromosome invalid. */
  ghost function Evaluation(genes: seq<int>, ids: seq<int>,
                            coh: set<int> -> real,
                            cpl: (set<int>, set<int>) -> real,
                            norm: (real, int) -> real): Objectives
    requires |genes| == |ids| >= 2
  {
    GroupingSizes(genes, ids);
    BucketObjectives(Grouping(genes, ids), |ids|, coh, cpl, norm)
  }

  /** The five objectives of the buckets `b` of a chromosome over n ids. */
  ghost function BucketObjectives(b: map<int, set<int>>, n: nat,
                                  coh: set<int> -> real,
                                  cpl: (set<int>, set<int>) -> real,
                                  norm: (real, int) -> real): Objectives
    requires b.Keys != {} && n >= 2
  {
    assert |b| == |b.Keys| > 0;
    Objectives(
      cohesion := CohesionObjective(b, coh),
      coupling := norm(-PairCoupling(b, cpl), |b|),
      componentSize := SizeObjective(|Singletons(b)|, |b|),
      componentRange := RangeObjective(MinSize(b), MaxSize(b), n),
      componentCount := CountObjective(|b|, n))
  }

  /** The cohesion objective: -1 when invalid, otherwise the mean bucket cohesion. */
  ghost function CohesionObjective(b: map<int, set<int>>, coh: set<int> -> real): (r: real)
    requires |b| > 0
    ensures Degenerate(b, coh) ==> r == -1.0
  {
    if Degenerate(b, coh) then -1.0 else CohesionTotal(b, coh) / |b| as real
  }

  // ---------------------------------------------------------------------
  // Properties of the objectives
  // ---------------------------------------------------------------------

  /** An invalid chromosome has cohesion -1. */
  lemma InvalidForcesCohesion(genes: seq<int>, ids: seq<int>, coh: set<int> -> real,
                              cpl: (set<int>, set<int>) -> real, norm: (real, int) -> real)
    requires |genes| == |ids| >= 2
    requires Degenerate(Grouping(genes, ids), coh)
    ensures Evaluation(genes, ids, coh, cpl, norm).cohesion == -1.0
  {
  }

  /**
   * Invalidity touches only cohesion: the other four objectives do not
   * depend on the cohesion function at all.
   */
  lemma OtherObjectivesIgnoreCohesion(genes: seq<int>, ids: seq<int>,
                                      coh1: set<int> -> real, coh2: set<int> -> real,
                                      cpl: (set<int>, set<int>) -> real, norm: (real, int) -> real)
    requires |genes| == |ids| >= 2
    ensures var e1 := Evaluation(genes, ids, coh1, cpl, norm);
      var e2 := Evaluation(genes, ids, coh2, cpl, norm);
      e1.coupling == e2.coupling && e1.componentSize == e2.componentSize &&
      e1.componentRange == e2.componentRange && e1.componentCount == e2.componentCount
  {
  }

  /**
   * A valid chromosome's cohesion is the mean of its per-bucket cohesion
   * values, so it lies between any lower and upper bound on them (and
   * equals their common value when all buckets agree).
   */
  lemma ValidCohesionIsMean(genes: seq<int>, ids: seq<int>, coh: set<int> -> real,
                            cpl: (set<int>, set<int>) -> real, norm: (real, int) -> real,
                            lo: real, hi: real)
    requires |genes| == |ids| >= 2
    requires !Degenerate(Grouping(genes, ids), coh)
    requires forall a :: a in Grouping(genes, ids) ==> lo <= coh(Grouping(genes, ids)[a]) <= hi
    ensures lo <= Evaluation(genes, ids, coh, cpl, norm).cohesion <= hi
  {
    GroupingSizes(genes, ids);
    MeanBounds(Grouping(genes, ids), coh, lo, hi);
  }

  /** The mean of the per-bucket cohesion values lies between their bounds. */
  lemma MeanBounds(b: map<int, set<int>>, coh: set<int> -> real, lo: real, hi: real)
    requires |b| > 0
    requires forall a :: a in b ==> lo <= coh(b[a]) <= hi
    ensures lo <= CohesionTotal(b, coh) / |b| as real <= hi
  {
    var f := CohesionOf(b, coh);
    assert forall a :: a in b.Keys ==> lo <= f(a) <= hi;
    SumOverLower(b.Keys, f, lo);
    SumOverUpper(b.Keys, f, hi);
    assert |b.Keys| == |b|;
    MeanBetween(|b|, lo, hi, CohesionTotal(b, coh));
  }

  /** A total between n times `lo` and n times `hi` has its mean between `lo` and `hi`. */
  lemma MeanBetween(n: nat, lo: real, hi: real, total: real)
    requires n > 0 && Times(n, lo) <= total <= Times(n, hi)
    ensures lo <= total / n as real <= hi
  {
    TimesIsProduct(n, lo);
    TimesIsProduct(n, hi);
    DivideBounds(total, n as real, lo, hi, total / n as real);
  }

  lemma DivideBounds(total: real, k: real, lo: real, hi: real, mean: real)
    requires k > 0.0 && k * lo <= total <= k * hi && mean == total / k
    ensures lo <= mean <= hi
  {
  }

  /**
   * With n >= 2 ids, componentRange lies in [-1, 0] and is 0 exactly when
   * all buckets have the same size.
   */
  lemma RangeBounds(genes: seq<int>, ids: seq<int>, coh: set<int> -> real,
                    cpl: (set<int>, set<int>) -> real, norm: (real, int) -> real)
    requires |genes| == |ids| >= 2
    ensures var e := Evaluation(genes, ids, coh, cpl, norm);
      var b := Grouping(genes, ids);
      && -1.0 <= e.componentRange <= 0.0
      && (e.componentRange == 0.0 <==> forall a1, a2 :: a1 in b && a2 in b ==> |b[a1]| == |b[a2]|)
  {
    GroupingSizes(genes, ids);
    SpreadBounds(Grouping(genes, ids), |ids|);
  }

  /** The size spread over n - 1, for buckets of 1 to n ids. */
  lemma SpreadBounds(b: map<int, set<int>>, n: nat)
    requires n >= 2 && b.Keys != {}
    requires forall a :: a in b ==> 1 <= |b[a]| <= n
    ensures var r := RangeObjective(MinSize(b), MaxSize(b), n);
      && -1.0 <= r <= 0.0
      && (r == 0.0 <==> forall a1, a2 :: a1 in b && a2 in b ==> |b[a1]| == |b[a2]|)
  {
    var lo, hi := MinSize(b), MaxSize(b);
    RangeObjectiveBounds(lo, hi, n);
    if forall a1, a2 :: a1 in b && a2 in b ==> |b[a1]| == |b[a2]| {
      var k1 :| k1 in b && |b[k1]| == lo;
      var k2 :| k2 in b && |b[k2]| == hi;
      assert lo == hi;
    }
  }

  /** For sizes 1 <= lo <= hi <= n the range objective is in [-1, 0], and 0 iff lo == hi. */
  lemma RangeObjectiveBounds(lo: nat, hi: nat, n: nat)
    requires 1 <= lo <= hi <= n && n >= 2
    ensures -1.0 <= RangeObjective(lo, hi, n) <= 0.0
    ensures RangeObjective(lo, hi, n) == 0.0 <==> lo == hi
  {
    NegativeRatio((lo - hi) as real, (n - 1) as real, RangeObjective(lo, hi, n));
  }

  lemma NegativeRatio(x: real, d: real, r: real)
    requires d > 0.0 && -d <= x <= 0.0 && r == x / d
    ensures -1.0 <= r <= 0.0 && (r == 0.0 <==> x == 0.0)
  {
  }

  /** componentSize is minus the singleton share, so it lies in [-1, 0]. */
  lemma SizeBounds(genes: seq<int>, ids: seq<int>, coh: set<int> -> real,
                   cpl: (set<int>, set<int>) -> real, norm: (real, int) -> real)
    requires |genes| == |ids| >= 2
    ensures var e := Evaluation(genes, ids, coh, cpl, norm);
      -1.0 <= e.componentSize <= 0.0
  {
    var b := Grouping(genes, ids);
    GroupingSizes(genes, ids);
    SubsetCard(Singletons(b), b.Keys);
    assert |b.Keys| == |b|;
    var e := Evaluation(genes, ids, coh, cpl, norm);
    NegativeRatio(-(|Singletons(b)| as real), |b| as real, e.componentSize);
  }

  /** For 1 <= k <= n the component-count objective lies in [0, 1]. */
  lemma CountObjectiveBounds(k: nat, n: nat)
    requires 1 <= k <= n
    ensures 0.0 <= CountObjective(k, n) <= 1.0
    ensures CountObjective(k, n) == 1.0 <== k as real == 0.25 * n as real
  {
    var kr, nr := k as real, n as real;
    if kr <= 0.25 * nr {
      var quarter := nr / 4.0;
      DivideBounds(kr, quarter, 0.0, 1.0, CountObjective(k, n));
      if kr == 0.25 * nr {
        DivideBounds(kr, quarter, 1.0, 1.0, CountObjective(k, n));
      }
    } else {
      DivideBounds(nr - kr, 0.75 * nr, 0.0, 1.0, CountObjective(k, n));
    }
  }

  /** The evaluated componentCount lies in [0, 1]. */
  lemma CountBounds(genes: seq<int>, ids: seq<int>, coh: set<int> -> real,
                    cpl: (set<int>, set<int>) -> real, norm: (real, int) -> real)
    requires |genes| == |ids| >= 2
    ensures var e := Evaluation(genes, ids, coh, cpl, norm);
      0.0 <= e.componentCount <= 1.0
  {
    GroupingSizes(genes, ids);
    CountObjectiveBounds(|Grouping(genes, ids)|, |ids|);
  }

  /** With non-negative pairwise couplings a bucket's outgoing coupling is non-negative. */
  lemma OutgoingNonNegative(b: map<int, set<int>>, cpl: (set<int>, set<int>) -> real, k1: int)
    requires forall k1, k2 :: k1 in b && k2 in b ==> cpl(b[k1], b[k2]) >= 0.0
    ensures OutgoingCoupling(b, cpl, k1) >= 0.0
  {
    SumOverNonNegative(b.Keys - {k1}, CouplingFrom(b, cpl, k1));
  }

  /** With non-negative pairwise couplings the raw coupling sum is non-negative. */
  lemma PairCouplingNonNegative(b: map<int, set<int>>, cpl: (set<int>, set<int>) -> real)
    requires forall k1, k2 :: k1 in b && k2 in b ==> cpl(b[k1], b[k2]) >= 0.0
    ensures PairCoupling(b, cpl) >= 0.0
  {
    forall k1 | k1 in b.Keys
      ensures OutgoingOf(b, cpl)(k1) >= 0.0
    {
      OutgoingNonNegative(b, cpl, k1);
    }
    SumOverNonNegative(b.Keys, OutgoingOf(b, cpl));
  }

  /** Two buckets: each direction of the pair is counted once, so the pair twice. */
  lemma PairCouplingOfTwo(b: map<int, set<int>>, cpl: (set<int>, set<int>) -> real, k1: int, k2: int)
    requires b.Keys == {k1, k2} && k1 != k2
    ensures PairCoupling(b, cpl) == cpl(b[k1], b[k2]) + cpl(b[k2], b[k1])
  {
    var out := OutgoingOf(b, cpl);
    SumOverRemove(b.Keys, out, k1);
    assert b.Keys - {k1} == {k2};
    SumOverRemove({k2}, out, k2);
    assert {k2} - {k2} == {};
    assert b.Keys - {k2} == {k1};
    SumOverRemove({k2}, CouplingFrom(b, cpl, k1), k2);
    SumOverRemove({k1}, CouplingFrom(b, cpl, k2), k1);
    assert {k1} - {k1} == {};
  }

  /** A single bucket has no coupling to anything. */
  lemma PairCouplingOfOne(b: map<int, set<int>>, cpl: (set<int>, set<int>) -> real, k: int)
    requires b.Keys == {k}
    ensures PairCoupling(b, cpl) == 0.0
  {
    var out := OutgoingOf(b, cpl);
    SumOverRemove(b.Keys, out, k);
    assert b.Keys - {k} == {};
  }

  // ---------------------------------------------------------------------
  // A concrete cohesion
  // ---------------------------------------------------------------------

  /**
   * The cohesion of the coupling-based chromosome: the relation weight
   * inside a component divided by its member count.
   */
  function CouplingCohesion(intra: set<int> -> real): (coh: set<int> -> real)
    ensures forall s :: |s| > 0 ==> coh(s) == intra(s) / |s| as real
  {
    s => if |s| == 0 then 0.0 else intra(s) / |s| as real
  }

  /**
   * With no relation inside any component (an empty graph) every bucket has
   * cohesion 0, so every chromosome is invalid and its cohesion is -1.
   */
  lemma EmptyGraphIsInvalid(genes: seq<int>, ids: seq<int>, intra: set<int> -> real,
                            cpl: (set<int>, set<int>) -> real, norm: (real, int) -> real)
    requires |genes| == |ids| >= 2
    requires forall s :: intra(s) == 0.0
    ensures Degenerate(Grouping(genes, ids), CouplingCohesion(intra))
    ensures Evaluation(genes, ids, CouplingCohesion(intra), cpl, norm).cohesion == -1.0
  {
    GroupingSizes(genes, ids);
    var b := Grouping(genes, ids);
    assert genes[0] in b;
    assert CouplingCohesion(intra)(b[genes[0]]) == 0.0;
  }

  // ---------------------------------------------------------------------
  // The loops of `evaluate`
  // ---------------------------------------------------------------------

  /** The `merge` loop of `evaluate`: one pass over the genes. */
  method GroupGenes(genes: seq<int>, ids: seq<int>) returns (components: map<int, set<int>>)
    requires |genes| == |ids|
    ensures components == Grouping(genes, ids)
  {
    components := map[];
    var i := 0;
    while i < |genes|
      invariant 0 <= i <= |genes|
      invariant components == Grouping(genes[..i], ids[..i])
    {
      GroupingStep(genes, ids, i);
      components := Merge(components, genes[i], ids[i]);
      i := i + 1;
    }
    assert genes[..i] == genes && ids[..i] == ids;
  }

  /** Visiting one more bucket `k2` adds the coupling from `k1` to it, unless it is `k1`. */
  lemma OutgoingStep(b: map<int, set<int>>, cpl: (set<int>, set<int>) -> real, k1: int,
                     seen: set<int>, k2: int)
    requires k2 !in seen
    ensures SumOver(seen + {k2} - {k1}, CouplingFrom(b, cpl, k1))
         == SumOver(seen - {k1}, CouplingFrom(b, cpl, k1)) + (if k2 == k1 then 0.0 else BucketCoupling(b, cpl, k1, k2))
  {
    if k1 != k2 {
      SumOverInsert(seen - {k1}, CouplingFrom(b, cpl, k1), k2);
      assert seen - {k1} + {k2} == seen + {k2} - {k1};
    } else {
      assert seen + {k2} - {k1} == seen - {k1};
    }
  }

  /** The inner loop: the coupling from bucket `k1` to every other bucket. */
  method OutgoingSum(components: map<int, set<int>>, cpl: (set<int>, set<int>) -> real, k1: int)
    returns (total: real)
    requires k1 in components
    ensures total == OutgoingCoupling(components, cpl, k1)
  {
    total := 0.0;
    var others := components.Keys;
    while others != {}
      invariant others <= components.Keys
      invariant total == SumOver((components.Keys - others) - {k1}, CouplingFrom(components, cpl, k1))
      decreases others
    {
      var k2 := Pick(others);
      VisitOne(components.Keys, others, k2);
      OutgoingStep(components, cpl, k1, components.Keys - others, k2);
      if k1 != k2 {
        total := total + cpl(components[k1], components[k2]);
      }
      others := others - {k2};
    }
    assert components.Keys - others == components.Keys;
  }

  /**
   * The outer loop over the buckets, in any order: the cohesion of each
   * bucket is added until one is 0, which flags the chromosome invalid, and
   * the coupling to every other bucket is subtracted.
   */
  method SumObjectives(components: map<int, set<int>>, coh: set<int> -> real,
                       cpl: (set<int>, set<int>) -> real)
    returns (invalid: bool, cohesionSum: real, couplingSum: real)
    ensures invalid <==> Degenerate(components, coh)
    ensures !invalid ==> cohesionSum == CohesionTotal(components, coh)
    ensures couplingSum == -PairCoupling(components, cpl)
  {
    invalid, cohesionSum, couplingSum := false, 0.0, 0.0;
    var remaining := components.Keys;
    while remaining != {}
      invariant remaining <= components.Keys
      invariant invalid <==> exists k :: k in components.Keys - remaining && coh(components[k]) == 0.0
      invariant !invalid ==> cohesionSum == SumOver(components.Keys - remaining, CohesionOf(components, coh))
      invariant couplingSum == -SumOver(components.Keys - remaining, OutgoingOf(components, cpl))
      decreases remaining
    {
      var k1 := Pick(remaining);
      ghost var visited := components.Keys - remaining;
      VisitOne(components.Keys, remaining, k1);
      if !invalid {
        var cohesion := coh(components[k1]);
        if cohesion == 0.0 {
          invalid := true;
        }
        cohesionSum := cohesionSum + cohesion;
        SumOverInsert(visited, CohesionOf(components, coh), k1);
      }
      var outgoing := OutgoingSum(components, cpl, k1);
      couplingSum := couplingSum - outgoing;
      SumOverInsert(visited, OutgoingOf(components, cpl), k1);
      remaining := remaining - {k1};
    }
    assert components.Keys - remaining == components.Keys;
  }

  /** The keys among `keys` of one-member buckets. */
  ghost function SingletonsAmong(b: map<int, set<int>>, keys: set<int>): set<int>
  {
    set k | k in keys && k in b && |b[k]| == 1
  }

  /** Visiting one more bucket adds it to the singletons exactly when it has one member. */
  lemma SingletonsStep(b: map<int, set<int>>, done: set<int>, k: int)
    requires k in b && k !in done
    ensures |SingletonsAmong(b, done + {k})| == |SingletonsAmong(b, done)| + (if |b[k]| == 1 then 1 else 0)
  {
    if |b[k]| == 1 {
      assert SingletonsAmong(b, done + {k}) == SingletonsAmong(b, done) + {k};
    } else {
      assert SingletonsAmong(b, done + {k}) == SingletonsAmong(b, done);
    }
  }

  /** A size attained by some bucket and below all others is MinSize. */
  lemma IsMinSize(b: map<int, set<int>>, lo: nat)
    requires b.Keys != {}
    requires exists k :: k in b && |b[k]| == lo
    requires forall k :: k in b ==> lo <= |b[k]|
    ensures lo == MinSize(b)
  {
    var kLo :| kLo in b && |b[kLo]| == lo;
    var m := MinSize(b);
    assert m <= lo && lo <= m;
  }

  /** A size attained by some bucket and above all others is MaxSize. */
  lemma IsMaxSize(b: map<int, set<int>>, hi: nat)
    requires b.Keys != {}
    requires exists k :: k in b && |b[k]| == hi
    requires forall k :: k in b ==> |b[k]| <= hi
    ensures hi == MaxSize(b)
  {
    var kHi :| kHi in b && |b[kHi]| == hi;
    var m := MaxSize(b);
    assert m <= hi && hi <= m;
  }

  /** The `min().orElse(0)` stream over the bucket sizes. */
  method SmallestSize(components: map<int, set<int>>) returns (minSize: nat)
    ensures components.Keys != {} ==> minSize == MinSize(components)
    ensures components.Keys == {} ==> minSize == 0
  {
    minSize := 0;
    var first := true;
    var rest := components.Keys;
    while rest != {}
      invariant rest <= components.Keys
      invariant first <==> rest == components.Keys
      invariant first ==> minSize == 0
      invariant !first ==> exists k :: k in components.Keys - rest && |components[k]| == minSize
      invariant forall k :: k in components.Keys - rest ==> minSize <= |components[k]|
      decreases rest
    {
      var k := Pick(rest);
      VisitOne(components.Keys, rest, k);
      if first || |components[k]| < minSize {
        minSize := |components[k]|;
      }
      first := false;
      rest := rest - {k};
    }
    assert components.Keys - rest == components.Keys;
    if components.Keys != {} {
      IsMinSize(components, minSize);
    }
  }

  /** The `max().orElse(0)` stream over the bucket sizes. */
  method LargestSize(components: map<int, set<int>>) returns (maxSize: nat)
    ensures components.Keys != {} ==> maxSize == MaxSize(components)
    ensures components.Keys == {} ==> maxSize == 0
  {
    maxSize := 0;
    var first := true;
    var rest := components.Keys;
    while rest != {}
      invariant rest <= components.Keys
      invariant first <==> rest == components.Keys
      invariant first ==> maxSize == 0
      invariant !first ==> exists k :: k in components.Keys - rest && |components[k]| == maxSize
      invariant forall k :: k in components.Keys - rest ==> |components[k]| <= maxSize
      decreases rest
    {
      var k := Pick(rest);
      VisitOne(components.Keys, rest, k);
      if first || |components[k]| > maxSize {
        maxSize := |components[k]|;
      }
      first := false;
      rest := rest - {k};
    }
    assert components.Keys - rest == components.Keys;
    if components.Keys != {} {
      IsMaxSize(components, maxSize);
    }
  }

  /** The `filter(i -> i == 1).count()` stream over the bucket sizes. */
  method SingletonCount(components: map<int, set<int>>) returns (singletons: nat)
    ensures singletons == |Singletons(components)|
  {
    singletons := 0;
    var rest := components.Keys;
    while rest != {}
      invariant rest <= components.Keys
      invariant singletons == |SingletonsAmong(components, components.Keys - rest)|
      decreases rest
    {
      var k := Pick(rest);
      VisitOne(components.Keys, rest, k);
      SingletonsStep(components, components.Keys - rest, k);
      if |components[k]| == 1 {
        singletons := singletons + 1;
      }
      rest := rest - {k};
    }
    assert Singletons(components) == SingletonsAmong(components, components.Keys - rest);
  }

  /**
   * The body of `evaluate`: group the genes, then compute the five
   * objectives and the invalid flag. The objective fields it accumulates
   * into hold 0 before the only evaluation, so the sums start at 0.
   */
  method EvaluateObjectives(genes: seq<int>, ids: seq<int>,
                            coh: set<int> -> real,
                            cpl: (set<int>, set<int>) -> real,
                            norm: (real, int) -> real) returns (o: Objectives)
    requires |genes| == |ids| >= 2
    ensures o == Evaluation(genes, ids, coh, cpl, norm)
  {
    // mapping from component id to a set of type ids
    var components := GroupGenes(genes, ids);
    GroupingSizes(genes, ids);
    o := ComponentObjectives(components, |ids|, coh, cpl, norm);
  }

  /** The objectives computed from the grouped components. */
  method ComponentObjectives(components: map<int, set<int>>, n: nat,
                             coh: set<int> -> real,
                             cpl: (set<int>, set<int>) -> real,
                             norm: (real, int) -> real) returns (o: Objectives)
    requires components.Keys != {} && n >= 2
    ensures o == BucketObjectives(components, n, coh, cpl, norm)
  {
    var k := |components|;
    assert k == |components.Keys| > 0;
    var cohesion, couplingSum := CohesionAndCoupling(components, coh, cpl);
    var coupling := norm(couplingSum, k);
    var minSize := SmallestSize(components);
    var maxSize := LargestSize(components);
    var singletons := SingletonCount(components);
    // minimize the difference between min and max component size
    var range := RangeObjective(minSize, maxSize, n);
    // punish one-type only components
    var size := SizeObjective(singletons, k);
    // maximize component number
    var count := CountObjective(k, n);
    o := Objectives(cohesion, coupling, size, range, count);
    assert o.componentRange == BucketObjectives(components, n, coh, cpl, norm).componentRange;
    assert o.componentSize == BucketObjectives(components, n, coh, cpl, norm).componentSize;
    assert o.componentCount == BucketObjectives(components, n, coh, cpl, norm).componentCount;
  }

  /** The cohesion objective and the raw coupling sum of the components. */
  method CohesionAndCoupling(components: map<int, set<int>>, coh: set<int> -> real,
                             cpl: (set<int>, set<int>) -> real)
    returns (cohesion: real, couplingSum: real)
    requires |components| > 0
    ensures cohesion == CohesionObjective(components, coh)
    ensures couplingSum == -PairCoupling(components, cpl)
  {
    var invalid, cohesionSum;
    invalid, cohesionSum, couplingSum := SumObjectives(components, coh, cpl);
    cohesion := cohesionSum / |components| as real;
    if invalid {
      cohesion := -1.0;
    }
  }

  // ---------------------------------------------------------------------
  // The chromosome object
  // ---------------------------------------------------------------------

  class Chromosome {
    /** The allele of each gene: the component label of each entity position. */
    const genes: seq<int>
    /** The entity id at each position (the partitioner's id array). */
    const ids: seq<int>
    /** The per-component cohesion (abstract in the source). */
    const computeCohesion: set<int> -> real
    /** The coupling from one component to another (abstract in the source). */
    const computeCoupling: (set<int>, set<int>) -> real
    /** The normalisation of the summed coupling by the component count (abstract in the source). */
    const normalizeCoupling: (real, int) -> real

    var evaluated: bool
    var cohesionObjective: real
    var couplingObjective: real
    var componentCountObjective: real
    var componentSizeObjective: real
    var componentRangeObjective: real

    /** The objective fields as they are now. */
    function Current(): Objectives
      reads this
    {
      Objectives(cohesionObjective, couplingObjective, componentSizeObjective,
                 componentRangeObjective, componentCountObjective)
    }

    /** The objectives this chromosome's evaluation yields. */
    ghost function Expected(): Objectives
      requires |genes| == |ids| >= 2
    {
      Evaluation(genes, ids, computeCohesion, computeCoupling, normalizeCoupling)
    }

    /** Before evaluation the fields hold 0; afterwards, the evaluation's values. */
    ghost predicate Valid()
      reads this
    {
      && |genes| == |ids|
      && (!evaluated ==> Current() == Unevaluated)
      && (evaluated ==> |ids| >= 2 && Current() == Expected())
    }

    constructor (genes: seq<int>, ids: seq<int>,
                 computeCohesion: set<int> -> real,
                 computeCoupling: (set<int>, set<int>) -> real,
                 normalizeCoupling: (real, int) -> real)
      requires |genes| == |ids|
      ensures Valid() && !evaluated
      ensures this.genes == genes && this.ids == ids
      ensures this.computeCohesion == computeCohesion && this.computeCoupling == computeCoupling
      ensures this.normalizeCoupling == normalizeCoupling
    {
      this.genes := genes;
      this.ids := ids;
      this.computeCohesion := computeCohesion;
      this.computeCoupling := computeCoupling;
      this.normalizeCoupling := normalizeCoupling;
      evaluated := false;
      cohesionObjective, couplingObjective := 0.0, 0.0;
      componentCountObjective, componentSizeObjective, componentRangeObjective := 0.0, 0.0, 0.0;
    }

    /** `evaluate`: compute the five objectives once and mark the chromosome evaluated. */
    method Evaluate()
      requires Valid() && !evaluated && |ids| >= 2
      modifies this
      ensures Valid() && evaluated
    {
      var o := EvaluateObjectives(genes, ids, computeCohesion, computeCoupling, normalizeCoupling);
      SetObjectives(o);
    }

    /** Sets the five objective fields and marks the chromosome evaluated. */
    method SetObjectives(o: Objectives)
      modifies this
      ensures evaluated && Current() == o
    {
      cohesionObjective, couplingObjective := o.cohesion, o.coupling;
      componentRangeObjective, componentSizeObjective, componentCountObjective := o.componentRange, o.componentSize, o.componentCount;
      evaluated := true;
    }

    /** The cohesion objective, evaluating first if needed. */
    method GetCohesionObjective() returns (r: real)
      requires Valid() && |ids| >= 2
      modifies this
      ensures Valid() && evaluated && r == Expected().cohesion
      ensures old(evaluated) ==> unchanged(this)
    {
      if !evaluated {
        Evaluate();
      }
      r := cohesionObjective;
    }

    /** The coupling objective, evaluating first if needed. */
    method GetCouplingObjective() returns (r: real)
      requires Valid() && |ids| >= 2
      modifies this
      ensures Valid() && evaluated && r == Expected().coupling
      ensures old(evaluated) ==> unchanged(this)
    {
      if !evaluated {
        Evaluate();
      }
      r := couplingObjective;
    }

    /** The component-size objective, evaluating first if needed. */
    method GetComponentSizeObjective() returns (r: real)
      requires Valid() && |ids| >= 2
      modifies this
      ensures Valid() && evaluated && r == Expected().componentSize
      ensures old(evaluated) ==> unchanged(this)
    {
      if !evaluated {
        Evaluate();
      }
      r := componentSizeObjective;
    }

    /** The component-range objective, evaluating first if needed. */
    method GetComponentRangeObjective() returns (r: real)
      requires Valid() && |ids| >= 2
      modifies this
      ensures Valid() && evaluated && r == Expected().componentRange
      ensures old(evaluated) ==> unchanged(this)
    {
      if !evaluated {
        Evaluate();
      }
      r := componentRangeObjective;
    }

    /** The component-count objective, evaluating first if needed. */
    method GetComponentCountObjective() returns (r: real)
      requires Valid() && |ids| >= 2
      modifies this
      ensures Valid() && evaluated && r == Expected().componentCount
      ensures old(evaluated) ==> unchanged(this)
    {
      if !evaluated {
        Evaluate();
      }
      r := componentCountObjective;
    }

    /**
     * `dominates`: evaluates this chromosome only, then compares its
     * objectives with the other chromosome's fields as they are (all 0 if
     * the other was never evaluated).
     */
    method Dominates(other: Chromosome) returns (d: bool)
      requires Valid() && |ids| >= 2
      modifies this
      ensures Valid() && evaluated
      ensures old(evaluated) ==> unchanged(this)
      ensures other != this ==> d == ParetoDominates(Expected(), other.Current())
      ensures other == this ==> !d
    {
      if !evaluated {
        Evaluate();
      }
      d := ParetoDominates(Current(), other.Current());
    }
  }
}
