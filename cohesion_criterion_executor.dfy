/**
 * The cohesion criterion: an initial partitioning of the types (by package,
 * by first matching candidate component, or one group per id), a partition
 * found by the evolutionary search (a parameter here), the materialisation
 * of every bucket as a component named COH<iteration>L<level>#<key> with its
 * ten most frequent name words, and the loop that clusters the resulting
 * components again, level by level, until one is left.
 */
module CohesionCriterionExecutor {

  import opened Aggregates
  import opened Numerals
  import opened ComponentStore

  /** A partitioning: bucket key to the ids in the bucket. */
  type Partitioning = map<int, set<int>>

  datatype Result<T> = Success(value: T) | Failure

  // ---------------------------------------------------------------------
  // Initial partitioning by package
  // ---------------------------------------------------------------------

  /** The packages of the given ids. */
  function Packages(typeIds: seq<int>, packageOf: int -> string): set<string>
  {
    set id | id in typeIds :: packageOf(id)
  }

  /** Keys 0 .. n-1. */
  ghost predicate KeysUpTo<V>(m: map<int, V>, n: nat)
  {
    forall k :: k in m <==> 0 <= k < n
  }

  /**
   * `groups` maps each package of `ids` to the set of its ids, with
   * nothing else in it.
   */
  ghost predicate GroupsByPackage(ids: seq<int>, packageOf: int -> string, groups: map<string, set<int>>)
  {
    && (forall id :: id in ids ==> packageOf(id) in groups && id in groups[packageOf(id)])
    && (forall p, id :: p in groups && id in groups[p] ==> packageOf(id) == p && id in ids)
    && (forall p :: p in groups ==> groups[p] != {})
  }

  /**
   * The ids grouped by package name, the groups numbered 0 .. p-1 for p
   * distinct packages: every id lies in exactly one bucket, the buckets
   * hold only the given ids, and two ids share a bucket exactly when their
   * packages are equal.
   */
  ghost predicate ByPackage(typeIds: seq<int>, packageOf: int -> string, components: Partitioning)
  {
    && KeysUpTo(components, |Packages(typeIds, packageOf)|)
    && (forall id :: id in typeIds ==> exists k :: k in components && id in components[k])
    && (forall k, id :: k in components && id in components[k] ==> id in typeIds)
    && (forall k1, k2, id ::
          k1 in components && k2 in components && id in components[k1] && id in components[k2] ==> k1 == k2)
    && (forall k, id1, id2 :: k in components && id1 in components[k] && id2 in typeIds ==>
          (id2 in components[k] <==> packageOf(id1) == packageOf(id2)))
  }

  /** `initialPartitioningFromPackageStructure`: the partitioning by package. */
  method PackagePartitioning(typeIds: seq<int>, packageOf: int -> string) returns (components: Partitioning)
    ensures ByPackage(typeIds, packageOf, components)
  {
    var packageComponents: map<string, set<int>> := map[];
    for i := 0 to |typeIds|
      invariant GroupsByPackage(typeIds[..i], packageOf, packageComponents)
    {
      var id := typeIds[i];
      var packageName := packageOf(id);
      var merged := if packageName in packageComponents then packageComponents[packageName] + {id} else {id};
      packageComponents := packageComponents[packageName := merged];
      assert typeIds[..i + 1] == typeIds[..i] + [id];
    }
    assert typeIds[..|typeIds|] == typeIds;
    ghost var packageAt, keyOf;
    components, packageAt, keyOf := NumberGroups(packageComponents);
    GroupsArePackages(typeIds, packageOf, packageComponents);
    NumberedPackagesCover(typeIds, packageOf, packageComponents, components, packageAt, keyOf);
    NumberedPackagesSeparate(typeIds, packageOf, packageComponents, components, packageAt, keyOf);
  }

  /** `components` numbers the values of `groups`, with `at` and `keyOf` mutually inverse. */
  ghost predicate Numbering<K, V>(groups: map<K, V>, components: map<int, V>, at: map<int, K>, keyOf: map<K, int>)
  {
    && at.Keys == components.Keys
    && (forall k :: k in components ==> at[k] in groups && components[k] == groups[at[k]])
    && (forall p :: p in groups ==> p in keyOf && keyOf[p] in components && at[keyOf[p]] == p)
    && (forall k :: k in components ==> at[k] in keyOf && keyOf[at[k]] == k)
  }

  /** Every id lies in some numbered bucket, and every member of a bucket is an id. */
  lemma NumberedPackagesCover(ids: seq<int>, packageOf: int -> string, groups: map<string, set<int>>,
                              components: Partitioning, at: map<int, string>, keyOf: map<string, int>)
    requires GroupsByPackage(ids, packageOf, groups)
    requires Numbering(groups, components, at, keyOf)
    ensures forall id :: id in ids ==> exists k :: k in components && id in components[k]
    ensures forall k, id :: k in components && id in components[k] ==> id in ids
  {
    forall id | id in ids
      ensures exists k :: k in components && id in components[k]
    {
      var k := keyOf[packageOf(id)];
      assert id in components[k];
    }
  }

  /** No id is in two numbered buckets, and a bucket holds exactly the ids of one package. */
  lemma NumberedPackagesSeparate(ids: seq<int>, packageOf: int -> string, groups: map<string, set<int>>,
                                 components: Partitioning, at: map<int, string>, keyOf: map<string, int>)
    requires GroupsByPackage(ids, packageOf, groups)
    requires Numbering(groups, components, at, keyOf)
    ensures forall k1, k2, id ::
      k1 in components && k2 in components && id in components[k1] && id in components[k2] ==> k1 == k2
    ensures forall k, id1, id2 :: k in components && id1 in components[k] && id2 in ids ==>
      (id2 in components[k] <==> packageOf(id1) == packageOf(id2))
  {
    forall k1, k2, id | k1 in components && k2 in components && id in components[k1] && id in components[k2]
      ensures k1 == k2
    {
      assert at[k1] == packageOf(id) == at[k2];
    }
  }

  /** The keys of the package map are exactly the packages. */
  lemma GroupsArePackages(ids: seq<int>, packageOf: int -> string, groups: map<string, set<int>>)
    requires GroupsByPackage(ids, packageOf, groups)
    ensures groups.Keys == Packages(ids, packageOf)
  {
    forall p | p in groups
      ensures p in Packages(ids, packageOf)
    {
      var id := Choose(groups[p]);
      assert packageOf(id) == p;
    }
  }

  /**
   * The groups outside `rest` are numbered 0 .. n-1, with `at` and `keyOf`
   * mutually inverse.
   */
  ghost predicate NumberedSoFar<K, V>(groups: map<K, V>, rest: set<K>, n: nat,
                                      components: map<int, V>, at: map<int, K>, keyOf: map<K, int>)
  {
    && rest <= groups.Keys
    && keyOf.Keys == groups.Keys - rest && n + |rest| == |groups.Keys|
    && KeysUpTo(components, n)
    && at.Keys == components.Keys
    && (forall k :: k in components ==> at[k] in groups && components[k] == groups[at[k]])
    && (forall p :: p in keyOf ==> keyOf[p] in components && at[keyOf[p]] == p)
    && (forall k :: k in components ==> at[k] in keyOf && keyOf[at[k]] == k)
  }

  /** Numbering one more group keeps the numbering. */
  lemma NumberOneMore<K, V>(groups: map<K, V>, rest: set<K>, n: nat,
                            components: map<int, V>, at: map<int, K>, keyOf: map<K, int>, p: K)
    requires NumberedSoFar(groups, rest, n, components, at, keyOf) && p in rest
    ensures NumberedSoFar(groups, rest - {p}, n + 1, components[n := groups[p]], at[n := p], keyOf[p := n])
  {
    NumberedKeysStep(groups, rest, n, components, at, keyOf, p);
    NumberedCountStep(groups, rest, n, components, at, keyOf, p);
    NumberedRangeStep(groups, rest, n, components, at, keyOf, p);
    NumberedLinksStep(groups, rest, n, components, at, keyOf, p,
                      components[n := groups[p]], at[n := p], keyOf[p := n]);
  }

  /** The numbered groups after numbering one more. */
  lemma NumberedKeysStep<K, V>(groups: map<K, V>, rest: set<K>, n: nat,
                               components: map<int, V>, at: map<int, K>, keyOf: map<K, int>, p: K)
    requires NumberedSoFar(groups, rest, n, components, at, keyOf) && p in rest
    ensures rest - {p} <= groups.Keys
    ensures keyOf[p := n].Keys == groups.Keys - (rest - {p})
  {
    VisitOne(groups.Keys, rest, p);
  }

  /** One group fewer to number. */
  lemma NumberedCountStep<K, V>(groups: map<K, V>, rest: set<K>, n: nat,
                                components: map<int, V>, at: map<int, K>, keyOf: map<K, int>, p: K)
    requires NumberedSoFar(groups, rest, n, components, at, keyOf) && p in rest
    ensures n + 1 + |rest - {p}| == |groups.Keys|
  {
    assert rest == (rest - {p}) + {p};
  }

  /** The numbers after numbering one more group. */
  lemma NumberedRangeStep<K, V>(groups: map<K, V>, rest: set<K>, n: nat,
                                components: map<int, V>, at: map<int, K>, keyOf: map<K, int>, p: K)
    requires NumberedSoFar(groups, rest, n, components, at, keyOf) && p in rest
    ensures KeysUpTo(components[n := groups[p]], n + 1)
    ensures at[n := p].Keys == components[n := groups[p]].Keys
  {
  }

  /** The links between numbers and groups after numbering one more group. */
  lemma NumberedLinksStep<K, V>(groups: map<K, V>, rest: set<K>, n: nat,
                                components: map<int, V>, at: map<int, K>, keyOf: map<K, int>, p: K,
                                components': map<int, V>, at': map<int, K>, keyOf': map<K, int>)
    requires NumberedSoFar(groups, rest, n, components, at, keyOf) && p in rest
    requires components' == components[n := groups[p]] && at' == at[n := p] && keyOf' == keyOf[p := n]
    ensures forall k :: k in components' ==> at'[k] in groups && components'[k] == groups[at'[k]]
    ensures forall q :: q in keyOf' ==> keyOf'[q] in components' && at'[keyOf'[q]] == q
    ensures forall k :: k in components' ==> at'[k] in keyOf' && keyOf'[at'[k]] == k
  {
    assert p !in keyOf && n !in components;
  }

  /** Once every group is numbered, the numbering covers `groups`. */
  lemma NumberedAll<K, V>(groups: map<K, V>, n: nat, components: map<int, V>, at: map<int, K>, keyOf: map<K, int>)
    requires NumberedSoFar(groups, {}, n, components, at, keyOf)
    ensures KeysUpTo(components, |groups|)
    ensures Numbering(groups, components, at, keyOf)
  {
    assert keyOf.Keys == groups.Keys;
  }

  /**
   * The second loop of `initialPartitioningFromPackageStructure`: the
   * groups numbered 0, 1, ... in iteration order.
   */
  method NumberGroups<K, V>(groups: map<K, V>)
    returns (components: map<int, V>, ghost packageAt: map<int, K>, ghost keyOf: map<K, int>)
    ensures KeysUpTo(components, |groups|)
    ensures Numbering(groups, components, packageAt, keyOf)
  {
    var componentId := 0;
    components, packageAt, keyOf := map[], map[], map[];
    var rest := groups.Keys;
    while rest != {}
      invariant NumberedSoFar(groups, rest, componentId, components, packageAt, keyOf)
      decreases rest
    {
      var p := Pick(rest);
      NumberOneMore(groups, rest, componentId, components, packageAt, keyOf, p);
      components := components[componentId := groups[p]];
      packageAt := packageAt[componentId := p];
      keyOf := keyOf[p := componentId];
      componentId := componentId + 1;
      rest := rest - {p};
    }
    NumberedAll(groups, componentId, components, packageAt, keyOf);
  }

  // ---------------------------------------------------------------------
  // Initial partitioning by candidate components
  // ---------------------------------------------------------------------

  /** The position of the first candidate that holds `id`, if any. */
  function FirstMatch(candidates: seq<int>, id: int,
                      isCandidateType: (int, int) -> bool,
                      isCandidateComponent: (int, int) -> bool): (r: Option<nat>)
    ensures r.Some? ==>
      r.value < |candidates| &&
      (isCandidateType(candidates[r.value], id) || isCandidateComponent(candidates[r.value], id))
    ensures r.Some? ==> forall j :: 0 <= j < r.value ==>
      !(isCandidateType(candidates[j], id) || isCandidateComponent(candidates[j], id))
    ensures r.None? ==> forall j :: 0 <= j < |candidates| ==>
      !(isCandidateType(candidates[j], id) || isCandidateComponent(candidates[j], id))
  {
    if candidates == [] then None
    else if isCandidateType(candidates[0], id) || isCandidateComponent(candidates[0], id) then Some(0)
    else
      match FirstMatch(candidates[1..], id, isCandidateType, isCandidateComponent)
      case None => None
      case Some(j) => Some(j + 1)
  }

  /**
   * Every type lies in the bucket numbered by the position, in the
   * candidates' iteration order, of the first candidate that holds it;
   * types no candidate holds are left out, and nothing else is in a bucket.
   */
  ghost predicate ByCandidates(candidates: seq<int>, typeIds: seq<int>, isCandidateType: (int, int) -> bool,
                               isCandidateComponent: (int, int) -> bool, mappings: Partitioning)
  {
    && (forall id :: id in typeIds ==>
          match FirstMatch(candidates, id, isCandidateType, isCandidateComponent)
          case None => forall k :: k in mappings ==> id !in mappings[k]
          case Some(k) => k in mappings && id in mappings[k])
    && (forall k, id :: k in mappings && id in mappings[k] ==>
          id in typeIds && FirstMatch(candidates, id, isCandidateType, isCandidateComponent) == Some(k))
  }

  /** `initialPartitioningFromComponents`: the partitioning by first matching candidate. */
  method CandidatePartitioning(candidates: seq<int>, typeIds: seq<int>,
                               isCandidateType: (int, int) -> bool,
                               isCandidateComponent: (int, int) -> bool)
    returns (mappings: Partitioning)
    ensures ByCandidates(candidates, typeIds, isCandidateType, isCandidateComponent, mappings)
  {
    mappings := map[];
    for i := 0 to |typeIds|
      invariant ByCandidates(candidates, typeIds[..i], isCandidateType, isCandidateComponent, mappings)
    {
      var id := typeIds[i];
      var componentId := 0;
      while componentId < |candidates|
        invariant 0 <= componentId <= |candidates|
        invariant forall j :: 0 <= j < componentId ==>
          !(isCandidateType(candidates[j], id) || isCandidateComponent(candidates[j], id))
      {
        var cId := candidates[componentId];
        if isCandidateType(cId, id) || isCandidateComponent(cId, id) {
          break;
        }
        componentId := componentId + 1;
      }
      var found := FirstMatch(candidates, id, isCandidateType, isCandidateComponent);
      if componentId < |candidates| {
        assert found == Some(componentId);
        var merged := if componentId in mappings then mappings[componentId] + {id} else {id};
        mappings := mappings[componentId := merged];
      } else {
        assert found.None?;
      }
      assert typeIds[..i + 1] == typeIds[..i] + [id];
    }
    assert typeIds[..|typeIds|] == typeIds;
  }

  // ---------------------------------------------------------------------
  // Partitioning from groups
  // ---------------------------------------------------------------------

  /**
   * `partitioningFromGroups`: one singleton bucket per group id, numbered
   * 0 .. n-1 in iteration order, every group id in exactly one bucket.
   */
  method PartitioningFromGroups(groupIds: set<int>)
    returns (partitioning: Partitioning, ghost groupAt: map<int, int>, ghost keyOf: map<int, int>)
    ensures KeysUpTo(partitioning, |groupIds|)
    ensures groupAt.Keys == partitioning.Keys
    ensures forall k :: k in partitioning ==> groupAt[k] in groupIds && partitioning[k] == {groupAt[k]}
    ensures forall g :: g in groupIds ==> g in keyOf && keyOf[g] in partitioning && groupAt[keyOf[g]] == g
    ensures forall k :: k in partitioning ==> groupAt[k] in keyOf && keyOf[groupAt[k]] == k
  {
    partitioning, groupAt, keyOf := map[], map[], map[];
    ghost var singletons := map g | g in groupIds :: {g};
    assert singletons.Keys == groupIds;
    var cId := 0;
    var rest := groupIds;
    while rest != {}
      invariant NumberedSoFar(singletons, rest, cId, partitioning, groupAt, keyOf)
      decreases rest
    {
      var group := Pick(rest);
      NumberOneMore(singletons, rest, cId, partitioning, groupAt, keyOf, group);
      partitioning := partitioning[cId := {group}];
      groupAt := groupAt[cId := group];
      keyOf := keyOf[group := cId];
      cId := cId + 1;
      rest := rest - {group};
    }
    NumberedAll(singletons, cId, partitioning, groupAt, keyOf);
  }

  /** Keys 0 .. |xs|-1, each a singleton bucket of one of `xs`, every id of `xs` in exactly one of them. */
  ghost predicate SingletonBuckets(xs: seq<int>, p: Partitioning)
  {
    && KeysUpTo(p, |xs|)
    && (forall k :: k in p ==> |p[k]| == 1 && p[k] <= Elements(xs))
    && (forall i :: 0 <= i < |xs| ==> {xs[i]} in p.Values)
    && (forall k1, k2 :: k1 in p && k2 in p && p[k1] == p[k2] ==> k1 == k2)
  }

  /** The partitioning built from the group ids gives each id of a listing of them its own bucket. */
  lemma SingletonsFromGroups(groupIds: set<int>, xs: seq<int>, p: Partitioning,
                             groupAt: map<int, int>, keyOf: map<int, int>)
    requires forall x :: x in groupIds ==> x in xs
    requires forall x :: x in xs ==> x in groupIds
    requires |xs| == |groupIds|
    requires KeysUpTo(p, |groupIds|)
    requires groupAt.Keys == p.Keys
    requires forall k :: k in p ==> groupAt[k] in groupIds && p[k] == {groupAt[k]}
    requires forall g :: g in groupIds ==> g in keyOf && keyOf[g] in p && groupAt[keyOf[g]] == g
    requires forall k :: k in p ==> groupAt[k] in keyOf && keyOf[groupAt[k]] == k
    ensures SingletonBuckets(xs, p)
  {
    forall k | k in p ensures |p[k]| == 1 && p[k] <= Elements(xs) {
      var g := groupAt[k];
      assert g in groupIds;
    }
    forall i | 0 <= i < |xs| ensures {xs[i]} in p.Values {
      var x := xs[i];
      assert x in groupIds;
      var k := keyOf[x];
      assert k in p && groupAt[k] == x;
    }
    forall k1, k2 | k1 in p && k2 in p && p[k1] == p[k2] ensures k1 == k2 {
      assert groupAt[k1] in p[k2];
    }
  }

  // ---------------------------------------------------------------------
  // Problem size
  // ---------------------------------------------------------------------

  /** The largest id, or 0 when there is none (`max().orElse(0)`). */
  function MaxOrZero(ids: seq<int>): (m: int)
    ensures ids == [] ==> m == 0
    ensures ids != [] ==> m in ids && forall i :: 0 <= i < |ids| ==> ids[i] <= m
  {
    if ids == [] then 0
    else if |ids| == 1 then ids[0]
    else
      var rest := MaxOrZero(ids[1..]);
      assert forall i :: 1 <= i < |ids| ==> ids[i] == ids[1..][i - 1];
      if ids[0] >= rest then ids[0] else rest
  }

  const TwoTo31: int := 0x8000_0000

  /** Java's narrowing to a 32-bit int: the value modulo 2^32, in [-2^31, 2^31). */
  function Int32(x: int): (r: int)
    ensures -TwoTo31 <= r < TwoTo31
    ensures (r - x) % (2 * TwoTo31) == 0
    ensures -TwoTo31 <= x < TwoTo31 ==> r == x
  {
    (x + TwoTo31) % (2 * TwoTo31) - TwoTo31
  }

  /**
   * `createProblem`'s size: the largest id, narrowed to int, plus one in
   * int arithmetic.
   */
  function ProblemSize(ids: seq<int>): (n: int)
    ensures ids == [] ==> n == 1
    ensures (forall i :: 0 <= i < |ids| ==> 0 <= ids[i] < TwoTo31 - 1) ==>
      n >= 1 && (forall i :: 0 <= i < |ids| ==> ids[i] < n) &&
      (ids != [] ==> n - 1 in ids)
  {
    Int32(Int32(MaxOrZero(ids)) + 1)
  }

  /** An id at the very top of the int range wraps the size around to a negative number. */
  lemma ProblemSizeWraps()
    ensures ProblemSize([TwoTo31 - 1]) == -TwoTo31
  {
  }

  // ---------------------------------------------------------------------
  // Component names
  // ---------------------------------------------------------------------

  /** "COH" + iteration + "L" + level + "#" + key. */
  function ComponentName(iteration: int, level: int, key: int): (s: string)
    ensures |s| > 3 && s[..3] == "COH"
  {
    "COH" + (Decimal(iteration) + ("L" + (Decimal(level) + ("#" + Decimal(key)))))
  }

  /** The name determines the iteration, the level and the bucket key. */
  lemma NameInjective(i1: int, l1: int, k1: int, i2: int, l2: int, k2: int)
    requires ComponentName(i1, l1, k1) == ComponentName(i2, l2, k2)
    ensures i1 == i2 && l1 == l2 && k1 == k2
  {
    var tail1 := Decimal(l1) + ("#" + Decimal(k1));
    var tail2 := Decimal(l2) + ("#" + Decimal(k2));
    var rest1 := Decimal(i1) + ("L" + tail1);
    var rest2 := Decimal(i2) + ("L" + tail2);
    assert rest1 == ComponentName(i1, l1, k1)[3..];
    assert rest2 == ComponentName(i2, l2, k2)[3..];
    DecimalLacks(i1, 'L');
    DecimalLacks(i2, 'L');
    SplitAtSeparator(Decimal(i1), tail1, Decimal(i2), tail2, 'L');
    DecimalLacks(l1, '#');
    DecimalLacks(l2, '#');
    SplitAtSeparator(Decimal(l1), Decimal(k1), Decimal(l2), Decimal(k2), '#');
    DecimalInjective(i1, i2);
    DecimalInjective(l1, l2);
    DecimalInjective(k1, k2);
  }

  // ---------------------------------------------------------------------
  // Word counts and top words
  // ---------------------------------------------------------------------

  /** A token is counted unless it is "$" or consists of digits only. */
  predicate Counted(word: string)
  {
    word != "$" && !(|word| > 0 && AllDigits(word))
  }

  /** The tokens of each type's name, as a bag. */
  function WordsOf(words: int -> seq<string>): int -> multiset<string>
  {
    t => multiset(words(t))
  }

  /** The counted tokens of a bag, each with its number of occurrences. */
  ghost function Counts(bag: multiset<string>): map<string, nat>
  {
    map w | w in bag && Counted(w) :: bag[w]
  }

  /** `wordCount` holds the counted tokens of `bag`, each with its number of occurrences. */
  ghost predicate CountsOf(wordCount: map<string, nat>, bag: multiset<string>)
  {
    && (forall w :: w in wordCount ==> w in bag && Counted(w) && wordCount[w] == bag[w])
    && (forall w :: w in bag && Counted(w) ==> w in wordCount)
  }

  /** There is one such map: the counts. */
  lemma CountsOfIsCounts(wordCount: map<string, nat>, bag: multiset<string>)
    requires CountsOf(wordCount, bag)
    ensures wordCount == Counts(bag)
  {
  }

  /** One more token: its count goes up by one if it is counted. */
  lemma CountsAdd(wordCount: map<string, nat>, bag: multiset<string>, w: string)
    requires CountsOf(wordCount, bag)
    ensures CountsOf(if Counted(w) then wordCount[w := if w in wordCount then wordCount[w] + 1 else 1]
                     else wordCount, bag + multiset{w})
  {
  }

  /**
   * The word counting of `materializeGroups`: every token of every type's
   * name, skipping "$" and all-digit tokens, counted once per occurrence.
   */
  method CountWords(types: set<int>, words: int -> seq<string>) returns (wordCount: map<string, nat>)
    ensures wordCount == Counts(BagOver(types, WordsOf(words)))
  {
    wordCount := map[];
    var rest := types;
    while rest != {}
      invariant rest <= types
      invariant CountsOf(wordCount, BagOver(types - rest, WordsOf(words)))
      decreases rest
    {
      var t := Pick(rest);
      ghost var done := BagOver(types - rest, WordsOf(words));
      wordCount := CountTokens(wordCount, done, words(t));
      VisitOne(types, rest, t);
      BagOverInsert(types - rest, WordsOf(words), t);
      rest := rest - {t};
    }
    assert types - rest == types;
    CountsOfIsCounts(wordCount, BagOver(types, WordsOf(words)));
  }

  /** The inner loop of the word counting: the tokens of one type's name. */
  method CountTokens(wordCount: map<string, nat>, ghost done: multiset<string>, ws: seq<string>)
    returns (counted: map<string, nat>)
    requires CountsOf(wordCount, done)
    ensures CountsOf(counted, done + multiset(ws))
  {
    counted := wordCount;
    for j := 0 to |ws|
      invariant CountsOf(counted, done + multiset(ws[..j]))
    {
      var word := ws[j];
      CountsAdd(counted, done + multiset(ws[..j]), word);
      assert multiset(ws[..j + 1]) == multiset(ws[..j]) + multiset{word} by {
        assert ws[..j + 1] == ws[..j] + [word];
      }
      if Counted(word) {
        counted := counted[word := if word in counted then counted[word] + 1 else 1];
      }
    }
    assert ws[..|ws|] == ws;
  }

  /** A token is counted exactly when it is a counted token of some type's name. */
  lemma CountsCharacterized(types: set<int>, words: int -> seq<string>, w: string)
    ensures w in Counts(BagOver(types, WordsOf(words))) <==>
      Counted(w) && exists t :: t in types && w in words(t)
  {
    BagOverMembers(types, words, w);
  }

  lemma {:induction false} BagOverMembers(types: set<int>, words: int -> seq<string>, w: string)
    ensures w in BagOver(types, WordsOf(words)) <==> exists t :: t in types && w in words(t)
    decreases types
  {
    if types != {} {
      var t := Choose(types);
      BagOverRemove(types, WordsOf(words), t);
      BagOverMembers(types - {t}, words, w);
      assert WordsOf(words)(t) == multiset(words(t));
    }
  }

  function Min(a: nat, b: nat): nat
  {
    if a <= b then a else b
  }

  /** The number of top words kept. */
  const TopWordLimit: nat := 10

  /**
   * `top` holds the min(10, |wordCount|) most frequent words, each once,
   * in non-increasing count order; no left-out word is more frequent than
   * a kept one. The order among equal counts is not fixed.
   */
  predicate IsTopWords(top: seq<string>, wordCount: map<string, nat>)
  {
    && |top| == Min(TopWordLimit, |wordCount|)
    && (forall i :: 0 <= i < |top| ==> top[i] in wordCount)
    && (forall i, j :: 0 <= i < j < |top| ==> top[i] != top[j])
    && (forall i, j :: 0 <= i < j < |top| ==> wordCount[top[i]] >= wordCount[top[j]])
    && (forall w, i :: w in wordCount && w !in top && 0 <= i < |top| ==> wordCount[w] <= wordCount[top[i]])
  }

  /** A word of the highest count among `candidates`. */
  method MostFrequent(wordCount: map<string, nat>, candidates: set<string>) returns (best: string)
    requires candidates != {} && candidates <= wordCount.Keys
    ensures best in candidates
    ensures forall w :: w in candidates ==> wordCount[w] <= wordCount[best]
  {
    best := Pick(candidates);
    var rest := candidates - {best};
    while rest != {}
      invariant rest <= candidates && best in candidates
      invariant forall w :: w in candidates - rest ==> wordCount[w] <= wordCount[best]
      decreases rest
    {
      var w := Pick(rest);
      VisitOne(candidates, rest, w);
      if wordCount[w] > wordCount[best] {
        best := w;
      }
      rest := rest - {w};
    }
    assert candidates - rest == candidates;
  }

  /**
   * The top words of `materializeGroups`: the words ordered by decreasing
   * count, cut after ten.
   */
  method TopWords(wordCount: map<string, nat>) returns (top: seq<string>)
    ensures IsTopWords(top, wordCount)
  {
    top := [];
    var remaining := wordCount.Keys;
    while |top| < TopWordLimit && remaining != {}
      invariant remaining <= wordCount.Keys
      invariant forall w :: w in remaining <==> w in wordCount && w !in top
      invariant |top| + |remaining| == |wordCount| && |top| <= TopWordLimit
      invariant forall i :: 0 <= i < |top| ==> top[i] in wordCount
      invariant forall i, j :: 0 <= i < j < |top| ==> top[i] != top[j]
      invariant forall i, j :: 0 <= i < j < |top| ==> wordCount[top[i]] >= wordCount[top[j]]
      invariant forall w, i :: w in remaining && 0 <= i < |top| ==> wordCount[w] <= wordCount[top[i]]
      decreases remaining
    {
      var w := MostFrequent(wordCount, remaining);
      top := top + [w];
      remaining := remaining - {w};
    }
  }

  // ---------------------------------------------------------------------
  // Materialising the buckets
  // ---------------------------------------------------------------------

  /** A bucket of one id is passed on as it is, unless every bucket must become a component. */
  predicate PassedThrough(bucket: set<int>, typeWrapper: bool)
  {
    |bucket| == 1 && !typeWrapper
  }

  /** A set of one element is that element's singleton. */
  lemma OnlyElement<T>(s: set<T>, x: T)
    requires |s| == 1 && x in s
    ensures s == {x}
  {
    assert |s - {x}| == 0;
  }

  /**
   * Component `c` is the materialisation of `bucket` under `key`: shape
   * "Component", the name COH<iteration>L<level>#<key>, the members that
   * were components (`earlier`) as contained components and the others as
   * contained types, and as top words those of the types it contains at
   * any depth.
   */
  ghost predicate Materialized(components: map<int, Component>, earlier: set<int>, c: int,
                               bucket: set<int>, iteration: int, level: int, key: int,
                               words: int -> seq<string>)
  {
    && c in components
    && components[c].shape == "Component"
    && components[c].name == ComponentName(iteration, level, key)
    && components[c].containedComponents == bucket * earlier
    && components[c].containedTypes == bucket - earlier
    && IsTopWords(components[c].topWords, Counts(BagOver(DeepTypes(components, c), WordsOf(words))))
  }

  /** Components added above `c` leave its materialisation intact. */
  lemma MaterializedFrame(before: map<int, Component>, after: map<int, Component>, earlier: set<int>, c: int,
                          bucket: set<int>, iteration: int, level: int, key: int, words: int -> seq<string>)
    requires 0 <= c
    requires Materialized(before, earlier, c, bucket, iteration, level, key, words)
    requires forall d :: 0 <= d <= c ==> (d in before <==> d in after)
    requires forall d :: 0 <= d <= c && d in before ==> after[d] == before[d]
    ensures Materialized(after, earlier, c, bucket, iteration, level, key, words)
  {
    DeepTypesFrame(before, after, c);
  }

  /**
   * The membership test of `materializeGroups`: the members that are
   * components, and the others, which are types.
   */
  method SplitMembers(store: Store, bucket: set<int>) returns (cs: set<int>, ts: set<int>)
    ensures cs == bucket * store.components.Keys
    ensures ts == bucket - store.components.Keys
  {
    cs, ts := {}, {};
    var rest := bucket;
    while rest != {}
      invariant rest <= bucket
      invariant cs == (bucket - rest) * store.components.Keys
      invariant ts == (bucket - rest) - store.components.Keys
      decreases rest
    {
      var id := Pick(rest);
      VisitOne(bucket, rest, id);
      if id in store.components {
        cs := cs + {id};
      } else {
        ts := ts + {id};
      }
      rest := rest - {id};
    }
    assert bucket - rest == bucket;
  }

  /**
   * The `else` branch of `materializeGroups`: a new component for one
   * bucket, holding the bucket's members, with the top words of the types
   * it contains at any depth.
   */
  method MaterializeBucket(store: Store, bucket: set<int>, iteration: int, level: int, key: int,
                           words: int -> seq<string>)
    returns (id: int)
    requires store.Valid()
    requires forall x :: x in bucket ==> store.Holds(x)
    modifies store
    ensures store.Valid()
    ensures id == old(store.nextId) && store.nextId == id + 1 && id !in old(store.components)
    ensures forall c :: c in old(store.components) ==> c in store.components && store.components[c] == old(store.components[c])
    ensures forall c :: c in store.components ==> c in old(store.components) || c == id
    ensures Materialized(store.components, old(store.components).Keys, id, bucket, iteration, level, key, words)
  {
    var cs, ts := SplitMembers(store, bucket);
    assert ts <= store.types by {
      forall x | x in ts ensures x in store.types {
        assert x in bucket && store.Holds(x);
      }
    }
    id := store.Create("Component", ComponentName(iteration, level, key), cs, ts);
    StoreTopWords(store, id, words);
  }

  /**
   * The word counting and ranking of `materializeGroups` for a new
   * component: the top words of the types it contains at any depth.
   */
  method StoreTopWords(store: Store, id: int, words: int -> seq<string>)
    requires store.Valid() && id in store.components
    modifies store
    ensures store.Valid() && store.nextId == old(store.nextId) && id in store.components
    ensures store.components == old(store.components)[id := old(store.components[id]).(topWords := store.components[id].topWords)]
    ensures IsTopWords(store.components[id].topWords, Counts(BagOver(DeepTypes(store.components, id), WordsOf(words))))
  {
    ghost var before := store.components;
    var deep := store.ContainedTypesRecursively(id);
    var wordCount := CountWords(deep, words);
    var top := TopWords(wordCount);
    store.SetTopWords(id, top);
    DeepTypesFrame(before, store.components, id);
  }

  /**
   * The bookkeeping of `materializeGroups` after the buckets in `done`:
   * the components of `before` are untouched, each done bucket is passed
   * on or has been materialised (`created`), and every result id goes back
   * (`origin`) to the bucket it came from.
   */
  ghost predicate Progress(before: map<int, Component>, components: map<int, Component>, types: set<int>,
                           partitioning: Partitioning, done: set<int>, typeWrapper: bool,
                           identified: set<int>, created: map<int, int>, origin: map<int, int>)
  {
    && (forall c :: c in before ==> c in components && components[c] == before[c])
    && (forall k :: k in done ==> k in partitioning && (k in created <==> !PassedThrough(partitioning[k], typeWrapper)))
    && (forall k :: k in created ==> k in done && created[k] !in before)
    && (forall k1, k2 :: k1 in created && k2 in created && created[k1] == created[k2] ==> k1 == k2)
    && (forall c :: c in components && c !in before ==>
          c in identified && c in origin && origin[c] in created && created[origin[c]] == c)
    && (forall k :: k in done && PassedThrough(partitioning[k], typeWrapper) ==> partitioning[k] <= identified)
    && (forall k :: k in created ==> created[k] in identified)
    && (forall x :: x in identified ==> x in origin && origin[x] in done && (x in components || x in types))
    && (forall x :: x in identified ==>
          (PassedThrough(partitioning[origin[x]], typeWrapper) && partitioning[origin[x]] == {x}) ||
          (origin[x] in created && created[origin[x]] == x))
  }

  /** Every bucket in `created` has been materialised as its component. */
  ghost predicate AllMaterialized(components: map<int, Component>, earlier: set<int>, partitioning: Partitioning,
                                  iteration: int, level: int, words: int -> seq<string>, created: map<int, int>)
  {
    forall k :: k in created && k in partitioning ==>
      Materialized(components, earlier, created[k], partitioning[k], iteration, level, k, words)
  }

  /** A new component above all earlier ones leaves their materialisations intact. */
  lemma AllMaterializedFrame(mid: map<int, Component>, after: map<int, Component>, earlier: set<int>,
                             partitioning: Partitioning, iteration: int, level: int, words: int -> seq<string>,
                             created: map<int, int>, key: int, id: int)
    requires AllMaterialized(mid, earlier, partitioning, iteration, level, words, created)
    requires forall k :: k in created ==> 0 <= created[k] < id
    requires forall c :: c in mid ==> c in after && after[c] == mid[c]
    requires forall c :: c in after ==> c in mid || c == id
    requires key in partitioning && Materialized(after, earlier, id, partitioning[key], iteration, level, key, words)
    ensures AllMaterialized(after, earlier, partitioning, iteration, level, words, created[key := id])
  {
    forall k | k in created && k in partitioning
      ensures Materialized(after, earlier, created[k], partitioning[k], iteration, level, k, words)
    {
      MaterializedFrame(mid, after, earlier, created[k], partitioning[k], iteration, level, k, words);
    }
  }

  /** The members of a bucket that are components now were components at the start. */
  lemma SameMembers(bucket: set<int>, mid: set<int>, before: set<int>)
    requires before <= mid
    requires forall x :: x in bucket && x in mid ==> x in before
    ensures bucket * mid == bucket * before && bucket - mid == bucket - before
  {
    assert forall x :: x in bucket * mid <==> x in bucket * before;
    assert forall x :: x in bucket - mid <==> x in bucket - before;
  }

  /** Passing a bucket of one member on keeps the bookkeeping. */
  lemma PassStep(before: map<int, Component>, components: map<int, Component>, types: set<int>,
                 partitioning: Partitioning, done: set<int>, typeWrapper: bool,
                 identified: set<int>, created: map<int, int>, origin: map<int, int>, key: int, only: int)
    requires Progress(before, components, types, partitioning, done, typeWrapper,
                      identified, created, origin)
    requires key in partitioning && key !in done
    requires PassedThrough(partitioning[key], typeWrapper) && partitioning[key] == {only}
    requires only in components || only in types
    ensures Progress(before, components, types, partitioning, done + {key}, typeWrapper,
                     identified + {only}, created, if only in identified then origin else origin[only := key])
  {
    if only in identified {
      PassKnown(before, components, types, partitioning, done, typeWrapper, identified, created, origin, key, only);
    } else {
      PassNew(before, components, types, partitioning, done, typeWrapper, identified, created, origin, key, only);
    }
  }

  /** `PassStep` for a member some earlier bucket already contributed. */
  lemma PassKnown(before: map<int, Component>, components: map<int, Component>, types: set<int>,
                  partitioning: Partitioning, done: set<int>, typeWrapper: bool,
                  identified: set<int>, created: map<int, int>, origin: map<int, int>, key: int, only: int)
    requires Progress(before, components, types, partitioning, done, typeWrapper,
                      identified, created, origin)
    requires key in partitioning && key !in done
    requires PassedThrough(partitioning[key], typeWrapper) && partitioning[key] == {only}
    requires only in identified
    ensures Progress(before, components, types, partitioning, done + {key}, typeWrapper,
                     identified, created, origin)
  {
  }

  /** `PassStep` for a member not contributed yet. */
  lemma PassNew(before: map<int, Component>, components: map<int, Component>, types: set<int>,
                partitioning: Partitioning, done: set<int>, typeWrapper: bool,
                identified: set<int>, created: map<int, int>, origin: map<int, int>, key: int, only: int)
    requires Progress(before, components, types, partitioning, done, typeWrapper,
                      identified, created, origin)
    requires key in partitioning && key !in done
    requires PassedThrough(partitioning[key], typeWrapper) && partitioning[key] == {only}
    requires only in components || only in types
    requires only !in identified
    ensures Progress(before, components, types, partitioning, done + {key}, typeWrapper,
                     identified + {only}, created, origin[only := key])
  {
  }

  /** Materialising a bucket as the new component `id` keeps the bookkeeping. */
  lemma CreateStep(before: map<int, Component>, mid: map<int, Component>, after: map<int, Component>,
                   types: set<int>, partitioning: Partitioning, done: set<int>, typeWrapper: bool,
                   identified: set<int>, created: map<int, int>, origin: map<int, int>, key: int, id: int)
    requires Progress(before, mid, types, partitioning, done, typeWrapper,
                      identified, created, origin)
    requires key in partitioning && key !in done && !PassedThrough(partitioning[key], typeWrapper)
    requires id !in mid && id in after && forall x :: x in identified ==> x != id
    requires forall c :: c in mid ==> c in after && after[c] == mid[c]
    requires forall c :: c in after ==> c in mid || c == id
    ensures Progress(before, after, types, partitioning, done + {key}, typeWrapper,
                     identified + {id}, created[key := id], origin[id := key])
  {
  }

  /** A bucket goes back to one result id at most. */
  lemma OriginInjective(before: map<int, Component>, components: map<int, Component>, types: set<int>,
                        partitioning: Partitioning, done: set<int>, typeWrapper: bool,
                        identified: set<int>, created: map<int, int>, origin: map<int, int>)
    requires Progress(before, components, types, partitioning, done, typeWrapper,
                      identified, created, origin)
    ensures forall x, y :: x in identified && y in identified && origin[x] == origin[y] ==> x == y
  {
  }

  /** The state of the store and the bookkeeping after the buckets in `done`. */
  ghost predicate Stage(store: Store, before: map<int, Component>, partitioning: Partitioning, done: set<int>,
                        iteration: int, level: int, typeWrapper: bool, words: int -> seq<string>,
                        identified: set<int>, created: map<int, int>, origin: map<int, int>)
    reads store
  {
    && store.Valid()
    && (forall k, x :: k in partitioning && x in partitioning[k] ==> x in before || x in store.types)
    && (forall k :: k in created ==> 0 <= created[k] < store.nextId)
    && Progress(before, store.components, store.types, partitioning, done, typeWrapper, identified, created, origin)
    && AllMaterialized(store.components, before.Keys, partitioning, iteration, level, words, created)
  }

  /**
   * One entry of the loop of `materializeGroups`: a bucket of one member,
   * when types need no wrapping, adds that member to the result; any other
   * bucket is materialised and adds the new component.
   */
  method MaterializeEntry(store: Store, ghost before: map<int, Component>, partitioning: Partitioning,
                          ghost done: set<int>, key: int, iteration: int, level: int, typeWrapper: bool,
                          words: int -> seq<string>,
                          identified: set<int>, ghost created: map<int, int>, ghost origin: map<int, int>)
    returns (identified': set<int>, ghost created': map<int, int>, ghost origin': map<int, int>)
    requires Stage(store, before, partitioning, done, iteration, level, typeWrapper, words, identified, created, origin)
    requires key in partitioning && key !in done
    modifies store
    ensures Stage(store, before, partitioning, done + {key}, iteration, level, typeWrapper, words,
                  identified', created', origin')
  {
    var bucket := partitioning[key];
    if |bucket| == 1 && !typeWrapper {
      var only := Pick(bucket);
      OnlyElement(bucket, only);
      assert only in store.components || only in store.types;
      PassStep(before, store.components, store.types, partitioning, done, typeWrapper,
               identified, created, origin, key, only);
      identified', created' := identified + {only}, created;
      origin' := if only in identified then origin else origin[only := key];
    } else {
      identified', created', origin' := CreateEntry(store, before, partitioning, done, key, iteration, level,
                                                    typeWrapper, words, identified, created, origin);
    }
  }

  /** The `else` branch of the loop of `materializeGroups`: the bucket becomes a new component. */
  method CreateEntry(store: Store, ghost before: map<int, Component>, partitioning: Partitioning,
                     ghost done: set<int>, key: int, iteration: int, level: int, typeWrapper: bool,
                     words: int -> seq<string>,
                     identified: set<int>, ghost created: map<int, int>, ghost origin: map<int, int>)
    returns (identified': set<int>, ghost created': map<int, int>, ghost origin': map<int, int>)
    requires Stage(store, before, partitioning, done, iteration, level, typeWrapper, words, identified, created, origin)
    requires key in partitioning && key !in done && !PassedThrough(partitioning[key], typeWrapper)
    modifies store
    ensures Stage(store, before, partitioning, done + {key}, iteration, level, typeWrapper, words,
                  identified', created', origin')
  {
    var bucket := partitioning[key];
    ghost var mid := store.components;
    assert forall x :: x in bucket ==> x in before || x in store.types;
    assert forall x :: x in bucket ==> store.Holds(x);
    assert forall x :: x in identified ==> x != store.nextId;
    assert forall c :: c in before ==> c in mid;
    SameMembers(bucket, mid.Keys, before.Keys);
    var id := MaterializeBucket(store, bucket, iteration, level, key, words);
    AllMaterializedFrame(mid, store.components, before.Keys, partitioning, iteration, level, words, created, key, id);
    CreateStep(before, mid, store.components, store.types, partitioning, done, typeWrapper,
               identified, created, origin, key, id);
    identified', created', origin' := identified + {id}, created[key := id], origin[id := key];
  }

  /**
   * `materializeGroups`: every bucket of the partitioning either passed on
   * as its single member or materialised as a new component; the result
   * holds the passed members and the new components. `created` maps each
   * materialised bucket's key to its component, `origin` maps each result
   * id back to the key of the bucket it came from.
   */
  method MaterializeGroups(store: Store, partitioning: Partitioning, iteration: int, level: int,
                           typeWrapper: bool, words: int -> seq<string>)
    returns (identified: set<int>, ghost created: map<int, int>, ghost origin: map<int, int>)
    requires store.Valid()
    requires forall k, x :: k in partitioning && x in partitioning[k] ==> store.Holds(x)
    modifies store
    ensures store.Valid()
    ensures forall c :: c in old(store.components) ==> c in store.components && store.components[c] == old(store.components[c])
    ensures forall k :: k in partitioning ==> (k in created <==> !PassedThrough(partitioning[k], typeWrapper))
    ensures forall k :: k in created ==>
      (k in partitioning && created[k] !in old(store.components) &&
       Materialized(store.components, old(store.components).Keys, created[k], partitioning[k], iteration, level, k, words))
    ensures forall k1, k2 :: k1 in created && k2 in created && created[k1] == created[k2] ==> k1 == k2
    ensures forall c :: c in store.components && c !in old(store.components) ==>
      c in identified && c in origin && origin[c] in created && created[origin[c]] == c
    ensures forall k :: k in partitioning && PassedThrough(partitioning[k], typeWrapper) ==> partitioning[k] <= identified
    ensures forall k :: k in created ==> created[k] in identified
    ensures forall x :: x in identified ==>
      (x in origin && origin[x] in partitioning && store.Holds(x) &&
       ((PassedThrough(partitioning[origin[x]], typeWrapper) && partitioning[origin[x]] == {x}) ||
        (origin[x] in created && created[origin[x]] == x)))
    ensures typeWrapper ==> forall x :: x in identified ==>
      x in store.components && x !in old(store.components) && store.components[x].shape == "Component"
    ensures |identified| <= |partitioning|
  {
    identified, created, origin := {}, map[], map[];
    ghost var before := store.components;
    assert forall k, x :: k in partitioning && x in partitioning[k] ==> x in before || x in store.types by {
      forall k, x | k in partitioning && x in partitioning[k] ensures x in before || x in store.types {
        assert store.Holds(x);
      }
    }
    var rest := partitioning.Keys;
    while rest != {}
      invariant rest <= partitioning.Keys
      invariant Stage(store, before, partitioning, partitioning.Keys - rest, iteration, level, typeWrapper, words,
                      identified, created, origin)
      decreases rest
    {
      var key := Pick(rest);
      VisitOne(partitioning.Keys, rest, key);
      identified, created, origin := MaterializeEntry(store, before, partitioning, partitioning.Keys - rest, key,
                                                      iteration, level, typeWrapper, words, identified, created, origin);
      rest := rest - {key};
    }
    assert partitioning.Keys - rest == partitioning.Keys;
    StageComplete(store, before, partitioning, iteration, level, typeWrapper, words, identified, created, origin);
  }

  /** After the last bucket, the bookkeeping states the result of `materializeGroups`. */
  lemma StageComplete(store: Store, before: map<int, Component>, partitioning: Partitioning,
                      iteration: int, level: int, typeWrapper: bool, words: int -> seq<string>,
                      identified: set<int>, created: map<int, int>, origin: map<int, int>)
    requires Stage(store, before, partitioning, partitioning.Keys, iteration, level, typeWrapper, words,
                   identified, created, origin)
    ensures store.Valid()
    ensures forall c :: c in before ==> c in store.components && store.components[c] == before[c]
    ensures forall k :: k in partitioning ==> (k in created <==> !PassedThrough(partitioning[k], typeWrapper))
    ensures forall k :: k in created ==>
      (k in partitioning && created[k] !in before &&
       Materialized(store.components, before.Keys, created[k], partitioning[k], iteration, level, k, words))
    ensures forall k1, k2 :: k1 in created && k2 in created && created[k1] == created[k2] ==> k1 == k2
    ensures forall c :: c in store.components && c !in before ==>
      c in identified && c in origin && origin[c] in created && created[origin[c]] == c
    ensures forall k :: k in partitioning && PassedThrough(partitioning[k], typeWrapper) ==> partitioning[k] <= identified
    ensures forall k :: k in created ==> created[k] in identified
    ensures forall x :: x in identified ==>
      (x in origin && origin[x] in partitioning && store.Holds(x) &&
       ((PassedThrough(partitioning[origin[x]], typeWrapper) && partitioning[origin[x]] == {x}) ||
        (origin[x] in created && created[origin[x]] == x)))
    ensures typeWrapper ==> forall x :: x in identified ==>
      x in store.components && x !in before && store.components[x].shape == "Component"
    ensures |identified| <= |partitioning|
  {
    assert Progress(before, store.components, store.types, partitioning, partitioning.Keys, typeWrapper,
                    identified, created, origin);
    OriginInjective(before, store.components, store.types, partitioning, partitioning.Keys, typeWrapper,
                    identified, created, origin);
    assert forall x :: x in identified ==> x in origin && origin[x] in partitioning.Keys;
    assert forall x, y :: x in identified && y in identified && origin[x] == origin[y] ==> x == y;
    InjectionCard(identified, origin, partitioning.Keys);
  }

  /** With every bucket materialised as its own component, there are as many results as buckets. */
  lemma AllCreated(partitioning: Partitioning, typeWrapper: bool, identified: set<int>, created: map<int, int>)
    requires typeWrapper
    requires forall k :: k in partitioning ==> (k in created <==> !PassedThrough(partitioning[k], typeWrapper))
    requires forall k :: k in created ==> created[k] in identified
    requires forall k1, k2 :: k1 in created && k2 in created && created[k1] == created[k2] ==> k1 == k2
    ensures |partitioning| <= |identified|
  {
    assert forall k :: k in partitioning.Keys ==> k in created && created[k] in identified;
    assert forall k1, k2 :: k1 in partitioning.Keys && k2 in partitioning.Keys && created[k1] == created[k2] ==> k1 == k2;
    InjectionCard(partitioning.Keys, created, identified);
  }

  // ---------------------------------------------------------------------
  // The level loop
  // ---------------------------------------------------------------------

  /** The smallest element of a non-empty set. */
  method Smallest(s: set<int>) returns (m: int)
    requires s != {}
    ensures m in s && forall x :: x in s ==> m <= x
  {
    m := Pick(s);
    var rest := s - {m};
    while rest != {}
      invariant rest <= s && m in s
      invariant forall x :: x in s - rest ==> m <= x
      decreases rest
    {
      var x := Pick(rest);
      VisitOne(s, rest, x);
      if x < m {
        m := x;
      }
      rest := rest - {x};
    }
    assert s - rest == s;
  }

  /** The ids in increasing order (`stream().sorted().toArray()`): each exactly once. */
  method SortedIds(s: set<int>) returns (ids: seq<int>)
    ensures forall i, j :: 0 <= i < j < |ids| ==> ids[i] < ids[j]
    ensures forall x :: x in s <==> x in ids
    ensures Elements(ids) == s
    ensures |ids| == |s|
  {
    ids := [];
    var rest := s;
    while rest != {}
      invariant rest <= s
      invariant forall x :: x in s <==> x in ids || x in rest
      invariant forall i, x :: 0 <= i < |ids| && x in rest ==> ids[i] < x
      invariant forall i, j :: 0 <= i < j < |ids| ==> ids[i] < ids[j]
      invariant |ids| + |rest| == |s|
      decreases rest
    {
      var m := Smallest(rest);
      ids := ids + [m];
      rest := rest - {m};
    }
    assert forall x :: x in Elements(ids) <==> x in s;
  }

  /** The buckets hold only the given ids. */
  predicate Within(ids: seq<int>, p: Partitioning)
  {
    forall k, x :: k in p && x in p[k] ==> x in ids
  }

  /** The buckets hold only the given ids, every id lies in one of them and none is empty. */
  predicate Covers(ids: seq<int>, p: Partitioning)
  {
    && Within(ids, p)
    && (forall x :: x in ids ==> exists k :: k in p && x in p[k])
    && (forall k :: k in p ==> p[k] != {})
  }

  /**
   * What the hierarchical driver relies on from the evolutionary search: a
   * covering of the ids with no more buckets than ids, and fewer when there
   * is more than one id.
   */
  predicate Shrinks(ids: seq<int>, p: Partitioning)
  {
    && Covers(ids, p)
    && |p| <= |ids|
    && (|ids| > 1 ==> |p| < |ids|)
  }

  /** At least two of the ids differ. */
  predicate TwoDistinct(ids: seq<int>)
  {
    exists i, j :: 0 <= i < |ids| && 0 <= j < |ids| && ids[i] != ids[j]
  }

  /** The ids as a set. */
  function Elements(ids: seq<int>): set<int>
  {
    set x | x in ids
  }

  /** A node the clustering creates: a "Component" named COH<iteration>L<level>#<key>. */
  ghost predicate Clustered(c: Component, iteration: int)
  {
    c.shape == "Component" && exists level, key :: c.name == ComponentName(iteration, level, key)
  }

  /** Every bucket of `p` has its materialisation among `result`. */
  ghost predicate MaterializesAll(components: map<int, Component>, earlier: set<int>, p: Partitioning,
                                  result: set<int>, iteration: int, level: int, words: int -> seq<string>)
  {
    forall k :: k in p ==> exists c :: c in result && Materialized(components, earlier, c, p[k], iteration, level, k, words)
  }

  /**
   * Every node of `components` that is not in `before` was materialised
   * from some bucket, at some level, as the component of some key.
   */
  ghost predicate FromBuckets(components: map<int, Component>, before: map<int, Component>, iteration: int,
                              words: int -> seq<string>)
  {
    forall c :: c in components && c !in before ==>
      exists earlier, bucket, level, key :: Materialized(components, earlier, c, bucket, iteration, level, key, words)
  }

  /** Later levels leave the materialisations of earlier levels intact. */
  lemma FromBucketsGrow(first: map<int, Component>, mid: map<int, Component>, last: map<int, Component>,
                        iteration: int, words: int -> seq<string>)
    requires Closed(mid)
    requires forall c :: c in mid ==> c in last && last[c] == mid[c]
    requires FromBuckets(mid, first, iteration, words) && FromBuckets(last, mid, iteration, words)
    ensures FromBuckets(last, first, iteration, words)
  {
    forall c | c in last && c !in first && c in mid
      ensures exists earlier, bucket, level, key :: Materialized(last, earlier, c, bucket, iteration, level, key, words)
    {
      var earlier, bucket, level, key :| Materialized(mid, earlier, c, bucket, iteration, level, key, words);
      DeepTypesGrow(mid, last, c);
      assert Materialized(last, earlier, c, bucket, iteration, level, key, words);
    }
  }

  /** Every node a level adds is one of its results and a component with a clustering name. */
  lemma NewNodesClustered(components: map<int, Component>, before: map<int, Component>, p: Partitioning,
                          iteration: int, level: int, words: int -> seq<string>,
                          identified: set<int>, created: map<int, int>, origin: map<int, int>)
    requires forall k :: k in created ==>
      k in p && Materialized(components, before.Keys, created[k], p[k], iteration, level, k, words)
    requires forall c :: c in components && c !in before ==>
      c in identified && c in origin && origin[c] in created && created[origin[c]] == c
    ensures forall c :: c in components && c !in before ==> c in identified && Clustered(components[c], iteration)
    ensures FromBuckets(components, before, iteration, words)
  {
    forall c | c in components && c !in before ensures Clustered(components[c], iteration) {
      var k := origin[c];
      assert components[c].name == ComponentName(iteration, level, k);
    }
    forall c | c in components && c !in before
      ensures exists earlier, bucket, level, key :: Materialized(components, earlier, c, bucket, iteration, level, key, words)
    {
      var k := origin[c];
      assert Materialized(components, before.Keys, c, p[k], iteration, level, k, words);
    }
  }

  /** `x` is the only member of a bucket of `p` that is passed on as it is. */
  ghost predicate PassedOn(p: Partitioning, x: int, typeWrapper: bool)
  {
    exists k :: k in p && PassedThrough(p[k], typeWrapper) && p[k] == {x}
  }

  /** `x` is a new node, the materialisation of a bucket of `p` at `level`. */
  ghost predicate BuiltFrom(components: map<int, Component>, before: map<int, Component>, p: Partitioning, x: int,
                            iteration: int, level: int, typeWrapper: bool, words: int -> seq<string>)
  {
    && x !in before
    && exists k :: k in p && !PassedThrough(p[k], typeWrapper) &&
         Materialized(components, before.Keys, x, p[k], iteration, level, k, words)
  }

  /**
   * The results of a level over `p`: exactly the members passed on and the
   * new components built from the other buckets, with a component for each
   * of those buckets.
   */
  ghost predicate ResultsOf(components: map<int, Component>, before: map<int, Component>, p: Partitioning,
                            result: set<int>, iteration: int, level: int, typeWrapper: bool, words: int -> seq<string>)
  {
    && (forall x {:trigger Yields(result, x)} :: Yields(result, x) <==>
          PassedOn(p, x, typeWrapper) || BuiltFrom(components, before, p, x, iteration, level, typeWrapper, words))
    && (forall k {:trigger BucketYields(components, before, p, result, k, iteration, level, typeWrapper, words)} ::
          BucketYields(components, before, p, result, k, iteration, level, typeWrapper, words))
  }

  /** `x` is one of the results. */
  predicate Yields(result: set<int>, x: int)
  {
    x in result
  }

  /** A bucket of `p` that is not passed on has its new component among the results. */
  ghost predicate BucketYields(components: map<int, Component>, before: map<int, Component>, p: Partitioning,
                               result: set<int>, k: int, iteration: int, level: int, typeWrapper: bool,
                               words: int -> seq<string>)
  {
    k in p && !PassedThrough(p[k], typeWrapper) ==>
      exists c :: c in result && c !in before && Materialized(components, before.Keys, c, p[k], iteration, level, k, words)
  }

  /** The bookkeeping of `materializeGroups` characterises its results. */
  lemma ResultsCharacterized(components: map<int, Component>, before: map<int, Component>, p: Partitioning,
                             identified: set<int>, created: map<int, int>, origin: map<int, int>,
                             iteration: int, level: int, typeWrapper: bool, words: int -> seq<string>)
    requires forall k :: k in p ==> (k in created <==> !PassedThrough(p[k], typeWrapper))
    requires forall k :: k in created ==>
      (k in p && created[k] !in before &&
       Materialized(components, before.Keys, created[k], p[k], iteration, level, k, words))
    requires forall c :: c in components && c !in before ==> c in identified
    requires forall k :: k in p && PassedThrough(p[k], typeWrapper) ==> p[k] <= identified
    requires forall k :: k in created ==> created[k] in identified
    requires forall x :: x in identified ==>
      (x in origin && origin[x] in p &&
       ((PassedThrough(p[origin[x]], typeWrapper) && p[origin[x]] == {x}) ||
        (origin[x] in created && created[origin[x]] == x)))
    ensures ResultsOf(components, before, p, identified, iteration, level, typeWrapper, words)
  {
    forall x
      ensures Yields(identified, x) <==>
                PassedOn(p, x, typeWrapper) || BuiltFrom(components, before, p, x, iteration, level, typeWrapper, words)
    {
      if x in identified {
        var k := origin[x];
        if !(PassedThrough(p[k], typeWrapper) && p[k] == {x}) {
          assert Materialized(components, before.Keys, x, p[k], iteration, level, k, words);
        }
      }
      if PassedOn(p, x, typeWrapper) {
        var k :| k in p && PassedThrough(p[k], typeWrapper) && p[k] == {x};
        assert x in p[k];
      }
    }
    forall k ensures BucketYields(components, before, p, identified, k, iteration, level, typeWrapper, words) {
      if k in p && !PassedThrough(p[k], typeWrapper) {
        assert created[k] in identified;
      }
    }
  }

  /** Passing a node on leaves the types it stands for unchanged. */
  lemma SameDeep(before: map<int, Component>, after: map<int, Component>, x: int)
    requires Closed(before)
    requires forall c :: c in before ==> c in after && after[c] == before[c]
    requires x in before || x !in after
    ensures Deep(after, x) == Deep(before, x)
  {
    if x in before {
      DeepTypesGrow(before, after, x);
    }
  }

  /** A node stands for part of what a set holding it stands for. */
  lemma DeepOfMember(components: map<int, Component>, x: int, xs: set<int>)
    requires x in xs
    ensures Deep(components, x) <= DeepOf(components, xs)
  {
    forall t | t in Deep(components, x) ensures t in DeepOf(components, xs) {
      assert x in xs && t in Deep(components, x);
    }
  }

  /** A component materialised from a bucket stands for the types of the bucket's members. */
  lemma BuiltDeep(before: map<int, Component>, after: map<int, Component>, x: int, bucket: set<int>,
                  iteration: int, level: int, key: int, words: int -> seq<string>)
    requires Closed(before) && Descending(after)
    requires forall c :: c in before ==> c in after && after[c] == before[c]
    requires Materialized(after, before.Keys, x, bucket, iteration, level, key, words)
    ensures DeepTypes(after, x) == DeepOf(before, bucket)
  {
    var comp := after[x];
    forall d | d in comp.containedComponents ensures 0 <= d < x && DeepTypes(after, d) == DeepTypes(before, d) {
      DeepTypesGrow(before, after, d);
    }
    forall t | t in DeepTypes(after, x) ensures t in DeepOf(before, bucket) {
      if t in comp.containedTypes {
        assert t in bucket && t in Deep(before, t);
      } else {
        var d :| d in comp.containedComponents && 0 <= d < x && t in DeepTypes(after, d);
        assert d in bucket && t in Deep(before, d);
      }
    }
    forall t | t in DeepOf(before, bucket) ensures t in DeepTypes(after, x) {
      var y :| y in bucket && t in Deep(before, y);
      if y in before {
        assert y in comp.containedComponents;
      } else {
        assert y in comp.containedTypes;
      }
    }
  }

  /** Each result of a level stands for types of the ids the level started from. */
  lemma ResultDeep(before: map<int, Component>, after: map<int, Component>, p: Partitioning, ids: seq<int>,
                   identified: set<int>, x: int, iteration: int, level: int, typeWrapper: bool,
                   words: int -> seq<string>)
    requires Closed(before) && Descending(after)
    requires forall c :: c in before ==> c in after && after[c] == before[c]
    requires Within(ids, p)
    requires forall y :: y in ids && y !in before ==> y !in after
    requires ResultsOf(after, before, p, identified, iteration, level, typeWrapper, words)
    requires x in identified
    ensures Deep(after, x) <= DeepOf(before, Elements(ids))
  {
    assert Yields(identified, x);
    if PassedOn(p, x, typeWrapper) {
      var k :| k in p && PassedThrough(p[k], typeWrapper) && p[k] == {x};
      assert x in p[k] && x in Elements(ids);
      SameDeep(before, after, x);
      DeepOfMember(before, x, Elements(ids));
    } else {
      var k :| k in p && !PassedThrough(p[k], typeWrapper) &&
               Materialized(after, before.Keys, x, p[k], iteration, level, k, words);
      BuiltDeep(before, after, x, p[k], iteration, level, k, words);
      forall t | t in DeepOf(before, p[k]) ensures t in DeepOf(before, Elements(ids)) {
        var y :| y in p[k] && t in Deep(before, y);
        assert y in Elements(ids);
      }
    }
  }

  /** Each id a level started from has its types stood for by some result. */
  lemma IdDeep(before: map<int, Component>, after: map<int, Component>, p: Partitioning, ids: seq<int>,
               identified: set<int>, y: int, iteration: int, level: int, typeWrapper: bool,
               words: int -> seq<string>)
    requires Closed(before) && Descending(after)
    requires forall c :: c in before ==> c in after && after[c] == before[c]
    requires Covers(ids, p)
    requires forall z :: z in ids && z !in before ==> z !in after
    requires ResultsOf(after, before, p, identified, iteration, level, typeWrapper, words)
    requires y in ids
    ensures Deep(before, y) <= DeepOf(after, identified)
  {
    var k :| k in p && y in p[k];
    if PassedThrough(p[k], typeWrapper) {
      OnlyElement(p[k], y);
      assert PassedOn(p, y, typeWrapper) && Yields(identified, y);
      SameDeep(before, after, y);
      DeepOfMember(after, y, identified);
    } else {
      assert BucketYields(after, before, p, identified, k, iteration, level, typeWrapper, words);
      var c :| c in identified && c !in before && Materialized(after, before.Keys, c, p[k], iteration, level, k, words);
      BuiltDeep(before, after, c, p[k], iteration, level, k, words);
      DeepOfMember(before, y, p[k]);
      DeepOfMember(after, c, identified);
    }
  }

  /**
   * A level over buckets that cover the ids loses no type and adds none:
   * its results stand for exactly the types its ids stood for.
   */
  lemma LevelDeep(before: map<int, Component>, after: map<int, Component>, p: Partitioning, ids: seq<int>,
                  identified: set<int>, iteration: int, level: int, typeWrapper: bool, words: int -> seq<string>)
    requires Closed(before) && Descending(after)
    requires forall c :: c in before ==> c in after && after[c] == before[c]
    requires Covers(ids, p)
    requires forall y :: y in ids && y !in before ==> y !in after
    requires ResultsOf(after, before, p, identified, iteration, level, typeWrapper, words)
    ensures DeepOf(after, identified) == DeepOf(before, Elements(ids))
  {
    forall t | t in DeepOf(after, identified) ensures t in DeepOf(before, Elements(ids)) {
      var x :| x in identified && t in Deep(after, x);
      ResultDeep(before, after, p, ids, identified, x, iteration, level, typeWrapper, words);
    }
    forall t | t in DeepOf(before, Elements(ids)) ensures t in DeepOf(after, identified) {
      var y :| y in Elements(ids) && t in Deep(before, y);
      IdDeep(before, after, p, ids, identified, y, iteration, level, typeWrapper, words);
    }
  }

  /**
   * With the types wrapped, every bucket has its own materialisation among
   * the results, so there are no fewer results than buckets.
   */
  lemma WrappedAll(components: map<int, Component>, before: map<int, Component>, p: Partitioning,
                   iteration: int, level: int, words: int -> seq<string>,
                   identified: set<int>, created: map<int, int>)
    requires forall k :: k in p ==> (k in created <==> !PassedThrough(p[k], true))
    requires forall k :: k in created ==>
      k in p && Materialized(components, before.Keys, created[k], p[k], iteration, level, k, words)
    requires forall k :: k in created ==> created[k] in identified
    requires forall k1, k2 :: k1 in created && k2 in created && created[k1] == created[k2] ==> k1 == k2
    ensures MaterializesAll(components, before.Keys, p, identified, iteration, level, words)
    ensures |p| <= |identified|
  {
    AllCreated(p, true, identified, created);
    forall k | k in p
      ensures exists c :: c in identified && Materialized(components, before.Keys, c, p[k], iteration, level, k, words)
    {
      assert created[k] in identified;
    }
  }

  /**
   * What a level yields from the buckets of a covering: over two distinct
   * ids, some id, and a new component when only one; over fewer, without
   * wrapping, the ids themselves.
   */
  lemma LevelResults(ids: seq<int>, p: Partitioning, hierarchical: bool, identified: set<int>,
                     created: map<int, int>, origin: map<int, int>,
                     components: map<int, Component>, before: map<int, Component>)
    requires forall k :: k in p ==> (k in created <==> !PassedThrough(p[k], !hierarchical))
    requires forall k :: k in created ==> created[k] in components && created[k] !in before && created[k] in identified
    requires forall k :: k in p && PassedThrough(p[k], !hierarchical) ==> p[k] <= identified
    requires forall x :: x in identified ==>
      (x in origin && origin[x] in p &&
       ((PassedThrough(p[origin[x]], !hierarchical) && p[origin[x]] == {x}) ||
        (origin[x] in created && created[origin[x]] == x)))
    ensures Covers(ids, p) && TwoDistinct(ids) ==>
      identified != {} &&
      (|identified| == 1 ==> forall c :: c in identified ==> c in components && c !in before)
    ensures hierarchical && Covers(ids, p) && !TwoDistinct(ids) ==> identified == Elements(ids) && |identified| <= 1
  {
    if Covers(ids, p) && TwoDistinct(ids) {
      SingleResultIsNew(ids, p, !hierarchical, identified, created, components, before);
    }
    if hierarchical && Covers(ids, p) && !TwoDistinct(ids) {
      PassesAll(ids, p, identified, created, origin);
    }
  }

  /**
   * A level over two distinct ids that its buckets cover yields some id,
   * and when it yields only one, that one is a new component: two distinct
   * ids cannot both pass through as the same single id.
   */
  lemma SingleResultIsNew(ids: seq<int>, p: Partitioning, typeWrapper: bool, identified: set<int>,
                          created: map<int, int>, components: map<int, Component>, before: map<int, Component>)
    requires Covers(ids, p) && TwoDistinct(ids)
    requires forall k :: k in p ==> (k in created <==> !PassedThrough(p[k], typeWrapper))
    requires forall k :: k in created ==> created[k] in components && created[k] !in before && created[k] in identified
    requires forall k :: k in p && PassedThrough(p[k], typeWrapper) ==> p[k] <= identified
    ensures identified != {}
    ensures |identified| == 1 ==> forall c :: c in identified ==> c in components && c !in before
  {
    var i, j :| 0 <= i < |ids| && 0 <= j < |ids| && ids[i] != ids[j];
    var a, b := ids[i], ids[j];
    assert a in ids && b in ids;
    var ka :| ka in p && a in p[ka];
    var kb :| kb in p && b in p[kb];
    if ka in created {
      assert created[ka] in identified;
    } else {
      assert a in identified;
    }
    if |identified| == 1 {
      forall c | c in identified ensures c in components && c !in before {
        OnlyElement(identified, c);
        if ka in created {
          assert created[ka] == c;
        } else if kb in created {
          assert created[kb] == c;
        } else {
          assert false;
        }
      }
    }
  }

  /** Results that each come from a bucket need a bucket. */
  lemma NothingFromNoBuckets(p: Partitioning, identified: set<int>, origin: map<int, int>)
    requires p == map[]
    requires forall x :: x in identified ==> x in origin && origin[x] in p
    ensures identified == {}
  {
    assert forall x :: x in identified ==> origin[x] in p.Keys;
  }

  /**
   * Without wrapping, a level over fewer than two distinct ids whose buckets
   * cover them passes every bucket through: it yields the ids themselves.
   */
  lemma PassesAll(ids: seq<int>, p: Partitioning, identified: set<int>, created: map<int, int>, origin: map<int, int>)
    requires Covers(ids, p) && !TwoDistinct(ids)
    requires forall k :: k in p ==> (k in created <==> !PassedThrough(p[k], false))
    requires forall k :: k in p && PassedThrough(p[k], false) ==> p[k] <= identified
    requires forall x :: x in identified ==>
      (x in origin && origin[x] in p &&
       ((PassedThrough(p[origin[x]], false) && p[origin[x]] == {x}) ||
        (origin[x] in created && created[origin[x]] == x)))
    ensures identified == Elements(ids) && |identified| <= 1
  {
    assert Within(ids, p);
    if ids == [] {
      assert Elements(ids) == {};
      assert forall k :: k in p ==> p[k] != {};
      assert forall k, z :: k in p && z in p[k] ==> z in ids;
      assert forall k :: k !in p;
      assert p == map[];
      NothingFromNoBuckets(p, identified, origin);
    } else {
      var x0 := ids[0];
      assert forall i :: 0 <= i < |ids| ==> ids[i] == x0;
      assert forall y :: y in ids ==> y == x0;
      assert Elements(ids) == {x0};
      forall k | k in p ensures p[k] == {x0} {
        var y := Choose(p[k]);
        assert forall z :: z in p[k] ==> z in ids;
        assert y in ids;
      }
      assert x0 in ids;
      var k0 :| k0 in p && x0 in p[k0];
      assert p[k0] <= identified;
      assert forall k :: k in p ==> PassedThrough(p[k], false) && k !in created;
      assert forall x :: x in identified ==> x == x0;
      assert identified == {x0};
    }
  }

  /**
   * With hierarchy, a level whose partition gives every id a bucket of its
   * own passes every bucket through: its results are its ids, so the next
   * level starts from the same ids and the do-while loop makes no progress.
   */
  lemma SingletonLevelStalls(components: map<int, Component>, before: map<int, Component>, p: Partitioning,
                             ids: seq<int>, result: set<int>, iteration: int, level: int, words: int -> seq<string>)
    requires Covers(ids, p)
    requires forall k :: k in p ==> |p[k]| == 1
    requires ResultsOf(components, before, p, result, iteration, level, false, words)
    ensures result == Elements(ids)
  {
    forall x ensures x in result <==> x in ids {
      assert Yields(result, x) <==>
        PassedOn(p, x, false) || BuiltFrom(components, before, p, x, iteration, level, false, words);
      assert !BuiltFrom(components, before, p, x, iteration, level, false, words);
      if x in ids {
        var k :| k in p && x in p[k];
        OnlyElement(p[k], x);
        assert PassedOn(p, x, false);
      }
      if PassedOn(p, x, false) {
        var k :| k in p && PassedThrough(p[k], false) && p[k] == {x};
        assert x in p[k];
      }
    }
  }

  /** What one level's results are, given the bookkeeping of `materializeGroups`. */
  lemma LevelOutcome(p: Partitioning, hierarchical: bool, iteration: int, level: int,
                     words: int -> seq<string>, identified: set<int>, created: map<int, int>, origin: map<int, int>,
                     components: map<int, Component>, before: map<int, Component>)
    requires forall k :: k in p ==> (k in created <==> !PassedThrough(p[k], !hierarchical))
    requires forall k :: k in created ==>
      (k in p && created[k] !in before &&
       Materialized(components, before.Keys, created[k], p[k], iteration, level, k, words))
    requires forall k1, k2 :: k1 in created && k2 in created && created[k1] == created[k2] ==> k1 == k2
    requires forall c :: c in components && c !in before ==>
      c in identified && c in origin && origin[c] in created && created[origin[c]] == c
    requires forall k :: k in p && PassedThrough(p[k], !hierarchical) ==> p[k] <= identified
    requires forall k :: k in created ==> created[k] in identified
    requires forall x :: x in identified ==>
      (x in origin && origin[x] in p &&
       ((PassedThrough(p[origin[x]], !hierarchical) && p[origin[x]] == {x}) ||
        (origin[x] in created && created[origin[x]] == x)))
    requires |identified| <= |p|
    ensures forall c :: c in components && c !in before ==> c in identified && Clustered(components[c], iteration)
    ensures FromBuckets(components, before, iteration, words)
    ensures ResultsOf(components, before, p, identified, iteration, level, !hierarchical, words)
    ensures !hierarchical ==>
      |identified| == |p| && MaterializesAll(components, before.Keys, p, identified, iteration, level, words)
  {
    assert FromBuckets(components, before, iteration, words) &&
           forall c :: c in components && c !in before ==> c in identified && Clustered(components[c], iteration)
    by {
      NewNodesClustered(components, before, p, iteration, level, words, identified, created, origin);
    }
    assert ResultsOf(components, before, p, identified, iteration, level, !hierarchical, words) by {
      ResultsCharacterized(components, before, p, identified, created, origin, iteration, level, !hierarchical, words);
    }
    if !hierarchical {
      WrappedAll(components, before, p, iteration, level, words, identified, created);
    }
  }

  /**
   * One pass of the do-while loop of the private `execute`: the search's
   * partition of the current ids, materialised. Without hierarchy every
   * bucket becomes a component (the types are wrapped), one per bucket;
   * with hierarchy a level over two distinct ids that yields a single id
   * yields a new component, and a level over fewer than two distinct ids
   * yields them unchanged.
   */
  method ClusterLevel(store: Store, ids: seq<int>, init: Partitioning, iteration: int, level: int, hierarchical: bool,
                      partition: (seq<int>, Partitioning) -> Partitioning, words: int -> seq<string>)
    returns (identified: set<int>)
    requires store.Valid()
    requires forall x :: x in ids ==> store.Holds(x)
    requires Within(ids, partition(ids, init))
    modifies store
    ensures store.Valid()
    ensures forall c :: c in old(store.components) ==> c in store.components && store.components[c] == old(store.components[c])
    ensures forall x :: x in identified ==> store.Holds(x)
    ensures forall c :: c in store.components && c !in old(store.components) ==>
      c in identified && Clustered(store.components[c], iteration)
    ensures FromBuckets(store.components, old(store.components), iteration, words)
    ensures ResultsOf(store.components, old(store.components), partition(ids, init), identified,
                      iteration, level, !hierarchical, words)
    ensures |identified| <= |partition(ids, init)|
    ensures !hierarchical ==>
      && |identified| == |partition(ids, init)|
      && (forall c :: c in identified ==> c in store.components && c !in old(store.components))
      && MaterializesAll(store.components, old(store.components).Keys, partition(ids, init), identified,
                         iteration, level, words)
    ensures Covers(ids, partition(ids, init)) && TwoDistinct(ids) ==>
      identified != {} &&
      (|identified| == 1 ==> forall c :: c in identified ==> c in store.components && c !in old(store.components))
    ensures hierarchical && Covers(ids, partition(ids, init)) && !TwoDistinct(ids) ==>
      identified == Elements(ids) && |identified| <= 1
  {
    var partitioning := partition(ids, init);
    ghost var created, origin;
    identified, created, origin := MaterializeGroups(store, partitioning, iteration, level, !hierarchical, words);
    LevelResults(ids, partitioning, hierarchical, identified, created, origin, store.components, old(store.components));
    LevelOutcome(partitioning, hierarchical, iteration, level, words, identified, created, origin,
                 store.components, old(store.components));
  }

  /**
   * One hierarchical pass of the do-while loop of the private `execute`:
   * the current ids clustered and materialised, then the identified ids,
   * sorted, for the next pass, with one singleton bucket per id to start
   * from.
   */
  method NextLevel(store: Store, ids: seq<int>, init: Partitioning, iteration: int, level: int,
                   partition: (seq<int>, Partitioning) -> Partitioning, words: int -> seq<string>)
    returns (next: seq<int>, nextInit: Partitioning)
    requires store.Valid()
    requires forall x :: x in ids ==> store.Holds(x)
    requires Shrinks(ids, partition(ids, init))
    modifies store
    ensures store.Valid()
    ensures forall c :: c in old(store.components) ==> c in store.components && store.components[c] == old(store.components[c])
    ensures forall c :: c in store.components && c !in old(store.components) ==>
      c in next && Clustered(store.components[c], iteration)
    ensures FromBuckets(store.components, old(store.components), iteration, words)
    ensures forall x :: x in next ==> store.Holds(x)
    ensures forall i, j :: 0 <= i < j < |next| ==> next[i] < next[j]
    ensures ResultsOf(store.components, old(store.components), partition(ids, init), Elements(next),
                      iteration, level, false, words)
    ensures DeepOf(store.components, Elements(next)) == DeepOf(old(store.components), Elements(ids))
    ensures SingletonBuckets(next, nextInit)
    ensures |next| <= |ids| && (|ids| > 1 ==> |next| < |ids|)
    ensures TwoDistinct(ids) ==>
      next != [] && (|next| == 1 ==> next[0] in store.components && next[0] !in old(store.components))
    ensures !TwoDistinct(ids) ==> Elements(next) == Elements(ids) && |next| <= 1
  {
    ghost var before := store.components;
    assert Closed(before);
    var identified := ClusterLevel(store, ids, init, iteration, level, true, partition, words);
    next := SortedIds(identified);
    ghost var groupAt, keyOf;
    nextInit, groupAt, keyOf := PartitioningFromGroups(identified);
    SingletonsFromGroups(identified, next, nextInit, groupAt, keyOf);
    store.ValidShape();
    assert forall y :: y in ids && y !in before ==> y in store.types && y !in store.components;
    LevelDeep(before, store.components, partition(ids, init), ids, identified, iteration, level, false, words);
    if TwoDistinct(ids) && |next| == 1 {
      assert next[0] in next;
    }
  }

  /** The one id left at the top of the hierarchy, a component, stands for all the types. */
  lemma RootDeep(components: map<int, Component>, ids: seq<int>, types: set<int>)
    requires |ids| == 1 && ids[0] in components
    requires DeepOf(components, Elements(ids)) == types
    ensures DeepTypes(components, ids[0]) == types
  {
    assert Elements(ids) == {ids[0]};
    DeepOfOne(components, ids[0]);
  }

  /** What the hierarchical levels have established so far, starting from the store `before`. */
  ghost predicate LevelsSoFar(before: map<int, Component>, components: map<int, Component>, types: set<int>,
                              typeIds: seq<int>, ids: seq<int>, done: bool, iteration: int, words: int -> seq<string>)
  {
    && (forall c :: c in before ==> c in components && components[c] == before[c])
    && (forall c :: c in components && c !in before ==> Clustered(components[c], iteration))
    && FromBuckets(components, before, iteration, words)
    && (forall x :: x in ids ==> x in components || x in types)
    && (!done ==> (TwoDistinct(typeIds) ==> TwoDistinct(ids)))
    && (done ==> |ids| <= 1)
    && (done && TwoDistinct(typeIds) ==> |ids| == 1 && ids[0] in components && ids[0] !in before)
    && (!TwoDistinct(typeIds) ==> !TwoDistinct(ids) && forall x :: x in ids ==> x in types)
    && DeepOf(components, Elements(ids)) == Elements(typeIds)
  }

  /**
   * One hierarchical level, with what `NextLevel` promises about it, keeps
   * what the levels have established; the loop stops once at most one id is
   * left and otherwise has fewer ids than before.
   */
  lemma LevelsStep(before: map<int, Component>, mid: map<int, Component>, after: map<int, Component>,
                   types: set<int>, typeIds: seq<int>, ids: seq<int>, next: seq<int>,
                   iteration: int, words: int -> seq<string>)
    requires LevelsSoFar(before, mid, types, typeIds, ids, false, iteration, words)
    requires Closed(mid)
    requires forall c :: c in mid ==> c in after && after[c] == mid[c]
    requires forall c :: c in after && c !in mid ==> c in next && Clustered(after[c], iteration)
    requires FromBuckets(after, mid, iteration, words)
    requires forall x :: x in next ==> x in after || x in types
    requires forall i, j :: 0 <= i < j < |next| ==> next[i] < next[j]
    requires DeepOf(after, Elements(next)) == DeepOf(mid, Elements(ids))
    requires |next| <= |ids| && (|ids| > 1 ==> |next| < |ids|)
    requires TwoDistinct(ids) ==> next != [] && (|next| == 1 ==> next[0] in after && next[0] !in mid)
    requires !TwoDistinct(ids) ==> Elements(next) == Elements(ids) && |next| <= 1
    ensures LevelsSoFar(before, after, types, typeIds, next, |next| <= 1, iteration, words)
    ensures |next| > 1 ==> |next| < |ids|
  {
    FromBucketsGrow(before, mid, after, iteration, words);
    if |next| > 1 {
      assert next[0] != next[1];
    } else if TwoDistinct(typeIds) {
      assert next[0] !in mid;
    } else {
      assert forall x :: x in next ==> x in Elements(ids);
    }
  }

  /**
   * The hierarchical do-while loop of the private `execute`: one level
   * after the other, each over the sorted ids of the previous level's
   * results and starting from one singleton bucket per id, until at most
   * one id is left. That id is a new component exactly when there were at
   * least two types; either way the ids left stand for all the types.
   */
  method Levels(store: Store, typeIds: seq<int>, initial: Partitioning, iteration: int,
                partition: (seq<int>, Partitioning) -> Partitioning, words: int -> seq<string>)
    returns (ids: seq<int>)
    requires store.Valid()
    requires forall i :: 0 <= i < |typeIds| ==> typeIds[i] in store.types
    requires forall ids, init :: Shrinks(ids, partition(ids, init))
    modifies store
    ensures store.Valid()
    ensures LevelsSoFar(old(store.components), store.components, store.types, typeIds, ids, true, iteration, words)
  {
    ids := typeIds;
    var init := initial;
    var level := 0;
    var done := false;
    ghost var before := store.components;
    DeepOfTypes(before, Elements(typeIds));
    while !done
      invariant store.Valid()
      invariant LevelsSoFar(before, store.components, store.types, typeIds, ids, done, iteration, words)
      decreases !done, |ids|
    {
      ghost var mid := store.components;
      store.ValidShape();
      var next;
      next, init := NextLevel(store, ids, init, iteration, level, partition, words);
      LevelsStep(before, mid, store.components, store.types, typeIds, ids, next, iteration, words);
      level := level + 1;
      done := |next| <= 1;
      ids := next;
    }
  }

  /**
   * The do-while loop of the private `execute`: partition the current ids
   * (`partition` stands for the evolutionary search), materialise the
   * buckets; without hierarchy the new components, one per bucket, are
   * the result; otherwise their ids, sorted, are partitioned again, one
   * singleton bucket per component to start from, until at most one id is
   * left. The result is then the component with that id; with no id left,
   * or when it is a type (its lookup as a component fails), the execution
   * fails, which happens exactly when the types are not at least two.
   */
  method Cluster(store: Store, typeIds: seq<int>, initial: Partitioning, iteration: int, hierarchical: bool,
                 partition: (seq<int>, Partitioning) -> Partitioning, words: int -> seq<string>)
    returns (r: Result<set<int>>)
    requires store.Valid()
    requires forall i :: 0 <= i < |typeIds| ==> typeIds[i] in store.types
    requires !hierarchical ==> Within(typeIds, partition(typeIds, initial))
    requires hierarchical ==> forall ids, init :: Shrinks(ids, partition(ids, init))
    modifies store
    ensures store.Valid()
    ensures forall c :: c in old(store.components) ==> c in store.components && store.components[c] == old(store.components[c])
    ensures forall c :: c in store.components && c !in old(store.components) ==> Clustered(store.components[c], iteration)
    ensures FromBuckets(store.components, old(store.components), iteration, words)
    ensures !hierarchical ==>
      && r.Success?
      && |r.value| == |partition(typeIds, initial)|
      && (forall c :: c in r.value <==> c in store.components && c !in old(store.components))
      && MaterializesAll(store.components, old(store.components).Keys, partition(typeIds, initial), r.value,
                         iteration, 0, words)
    ensures hierarchical ==> (r.Success? <==> TwoDistinct(typeIds))
    ensures hierarchical && r.Success? ==>
      |r.value| == 1 && forall c :: c in r.value ==> c in store.components && c !in old(store.components)
    ensures hierarchical && r.Success? ==> forall c :: c in r.value ==> DeepTypes(store.components, c) == Elements(typeIds)
  {
    if !hierarchical {
      var identified := ClusterLevel(store, typeIds, initial, iteration, 0, false, partition, words);
      return Success(identified);
    }
    var ids := Levels(store, typeIds, initial, iteration, partition, words);
    if ids == [] {
      r := Failure;
    } else if ids[0] in store.components {
      assert ids[0] in ids;
      RootDeep(store.components, ids, Elements(typeIds));
      r := Success({ids[0]});
    } else {
      r := Failure;
    }
  }

  /**
   * The public `execute` without candidates: the types partitioned by
   * package (`initial`) to start from.
   */
  method ExecuteByPackages(store: Store, typeIds: seq<int>, packageOf: int -> string, iteration: int,
                           hierarchical: bool, partition: (seq<int>, Partitioning) -> Partitioning,
                           words: int -> seq<string>)
    returns (r: Result<set<int>>, ghost initial: Partitioning)
    requires store.Valid()
    requires forall i :: 0 <= i < |typeIds| ==> typeIds[i] in store.types
    requires !hierarchical ==> forall init :: Within(typeIds, partition(typeIds, init))
    requires hierarchical ==> forall ids, init :: Shrinks(ids, partition(ids, init))
    modifies store
    ensures ByPackage(typeIds, packageOf, initial)
    ensures store.Valid()
    ensures forall c :: c in old(store.components) ==> c in store.components && store.components[c] == old(store.components[c])
    ensures forall c :: c in store.components && c !in old(store.components) ==> Clustered(store.components[c], iteration)
    ensures FromBuckets(store.components, old(store.components), iteration, words)
    ensures !hierarchical ==>
      && r.Success?
      && |r.value| == |partition(typeIds, initial)|
      && (forall c :: c in r.value <==> c in store.components && c !in old(store.components))
      && MaterializesAll(store.components, old(store.components).Keys, partition(typeIds, initial), r.value,
                         iteration, 0, words)
    ensures hierarchical ==> (r.Success? <==> TwoDistinct(typeIds))
    ensures hierarchical && r.Success? ==>
      |r.value| == 1 && forall c :: c in r.value ==> c in store.components && c !in old(store.components)
    ensures hierarchical && r.Success? ==> forall c :: c in r.value ==> DeepTypes(store.components, c) == Elements(typeIds)
  {
    var start := PackagePartitioning(typeIds, packageOf);
    initial := start;
    if !hierarchical {
      assert Within(typeIds, partition(typeIds, start));
    }
    r := Cluster(store, typeIds, start, iteration, hierarchical, partition, words);
  }

  /**
   * The public `execute` with candidate components: each type starts in
   * the bucket (`initial`) of the first candidate that holds it.
   */
  method ExecuteByCandidates(store: Store, candidates: seq<int>, typeIds: seq<int>,
                             isCandidateType: (int, int) -> bool, isCandidateComponent: (int, int) -> bool,
                             iteration: int, hierarchical: bool,
                             partition: (seq<int>, Partitioning) -> Partitioning, words: int -> seq<string>)
    returns (r: Result<set<int>>, ghost initial: Partitioning)
    requires store.Valid()
    requires forall i :: 0 <= i < |typeIds| ==> typeIds[i] in store.types
    requires !hierarchical ==> forall init :: Within(typeIds, partition(typeIds, init))
    requires hierarchical ==> forall ids, init :: Shrinks(ids, partition(ids, init))
    modifies store
    ensures ByCandidates(candidates, typeIds, isCandidateType, isCandidateComponent, initial)
    ensures store.Valid()
    ensures forall c :: c in old(store.components) ==> c in store.components && store.components[c] == old(store.components[c])
    ensures forall c :: c in store.components && c !in old(store.components) ==> Clustered(store.components[c], iteration)
    ensures FromBuckets(store.components, old(store.components), iteration, words)
    ensures !hierarchical ==>
      && r.Success?
      && |r.value| == |partition(typeIds, initial)|
      && (forall c :: c in r.value <==> c in store.components && c !in old(store.components))
      && MaterializesAll(store.components, old(store.components).Keys, partition(typeIds, initial), r.value,
                         iteration, 0, words)
    ensures hierarchical ==> (r.Success? <==> TwoDistinct(typeIds))
    ensures hierarchical && r.Success? ==>
      |r.value| == 1 && forall c :: c in r.value ==> c in store.components && c !in old(store.components)
    ensures hierarchical && r.Success? ==> forall c :: c in r.value ==> DeepTypes(store.components, c) == Elements(typeIds)
  {
    var start := CandidatePartitioning(candidates, typeIds, isCandidateType, isCandidateComponent);
    initial := start;
    if !hierarchical {
      assert Within(typeIds, partition(typeIds, start));
    }
    r := Cluster(store, typeIds, start, iteration, hierarchical, partition, words);
  }
}
