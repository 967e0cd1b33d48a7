# SAR framework core, modelled in Dafny

This project models four pieces of sequential logic from the SAR framework, a tool that recovers a
software architecture by clustering the types of a Java system into components:

- **The multi-objective chromosome** (`LongObjectiveChromosome`). One component label (allele) per
  entity is grouped into buckets. Five objectives (cohesion, coupling, component size, component
  range, component count) are computed from the buckets, a degenerate assignment has its cohesion
  forced to -1, and Pareto dominance compares two chromosomes. Evaluation is lazy and runs at most
  once.
- **The cohesion criterion executor** (`CohesionCriterionExecutor`). It builds the initial
  partitioning three ways: by package, by first matching candidate component, and as singletons. It
  materialises every bucket of a partitioning as a component node (or passes a singleton through),
  names it `COH<iteration>L<level>#<key>`, stores its ten most frequent name tokens, and drives the
  level loop of the hierarchical clustering.
- **The type coupling formula** (`TypeCouplingEnricher`). The coupling of two types is a weighted
  mean of twelve per-relation terms computed from counts in the metric repository. The enrichment
  pass stores only strictly positive couplings.
- **The rule-based criterion executor** (`RuleBasedCriterionExecutor`). Each rule's component is
  found or created. Each type the rule matches gets a classification into that component. The
  components are collected in a set ordered by shape and then name. The map from type name to shape
  to component names is built, and the types matched into several components of one shape are
  counted.

The graph store becomes the class `ComponentStore.Store`: component nodes by id, type node ids, and a
fresh-id counter. Calls into code that is not part of the model are parameters of the operations
that use them:

- the evolutionary search `Partitioner.partition`;
- the repository's count queries (`TypeCouplingEnricher.Metrics`);
- the package name of a type;
- the candidate-membership queries;
- the camel-case splitting of a type's name;
- a rule's matcher;
- a type's fully qualified name.

Java `double`s are `real`s. NaN is `TypeCouplingEnricher.NotANumber` wherever the source reacts to
it. `HashMap` and `HashSet` iteration order is left open: every such loop picks an arbitrary
remaining element, so each proof covers every order.

Files:

- `aggregates.dfy`: order-independent sums, bags and picks over sets.
- `numerals.dfy`: Java's decimal rendering of integers.
- `component_store.dfy`: the store.
- `long_objective_chromosome.dfy`
- `cohesion_criterion_executor.dfy`
- `type_coupling_enricher.dfy`
- `rule_based_criterion_executor.dfy`

## Model

| member | source | states |
|---|---|---|
| LongObjectiveChromosome.ParetoDominates | src/main/java/com/buchmais/sarf/classification/criterion/cohesion/LongObjectiveChromosome.java:142-186 | `dominates` holds exactly when no objective is worse and at least one is better |
| LongObjectiveChromosome.DominatesIrreflexive | src/main/java/com/buchmais/sarf/classification/criterion/cohesion/LongObjectiveChromosome.java:142-186 | no objective vector dominates itself |
| LongObjectiveChromosome.DominatesAsymmetric | src/main/java/com/buchmais/sarf/classification/criterion/cohesion/LongObjectiveChromosome.java:142-186 | if a dominates b then b does not dominate a |
| LongObjectiveChromosome.DominatesTransitive | src/main/java/com/buchmais/sarf/classification/criterion/cohesion/LongObjectiveChromosome.java:142-186 | dominance is transitive |
| LongObjectiveChromosome.Merge | src/main/java/com/buchmais/sarf/classification/criterion/cohesion/LongObjectiveChromosome.java:54-60 | `merge` of one id: the allele's bucket gains the id, the other buckets are unchanged, the key set gains the allele |
| LongObjectiveChromosome.GroupingStep | src/main/java/com/buchmais/sarf/classification/criterion/cohesion/LongObjectiveChromosome.java:53-61 | grouping one more gene is the merge of its id into its allele's bucket |
| LongObjectiveChromosome.Grouping | src/main/java/com/buchmais/sarf/classification/criterion/cohesion/LongObjectiveChromosome.java:52-61 | the buckets are keyed by exactly the alleles that occur, and the id at position i lies in the bucket of gene i's allele |
| LongObjectiveChromosome.GroupingPartitionsIds | src/main/java/com/buchmais/sarf/classification/criterion/cohesion/LongObjectiveChromosome.java:52-61 | the id at position i lies in the bucket of gene i's allele and in no other; every bucket is non-empty and holds only ids from the array |
| LongObjectiveChromosome.GroupingSizes | src/main/java/com/buchmais/sarf/classification/criterion/cohesion/LongObjectiveChromosome.java:52-61 | between 1 and n buckets, each of size between 1 and n |
| LongObjectiveChromosome.GroupGenes | src/main/java/com/buchmais/sarf/classification/criterion/cohesion/LongObjectiveChromosome.java:52-61 | the grouping loop builds exactly the specified grouping |
| LongObjectiveChromosome.InvalidForcesCohesion | src/main/java/com/buchmais/sarf/classification/criterion/cohesion/LongObjectiveChromosome.java:64-97 | when some bucket's cohesion is 0, the cohesion objective is -1 |
| LongObjectiveChromosome.OtherObjectivesIgnoreCohesion | src/main/java/com/buchmais/sarf/classification/criterion/cohesion/LongObjectiveChromosome.java:71-97 | coupling, size, range and count do not depend on the cohesion function, so invalidity leaves them as computed |
| LongObjectiveChromosome.ValidCohesionIsMean | src/main/java/com/buchmais/sarf/classification/criterion/cohesion/LongObjectiveChromosome.java:63-80 | for a valid chromosome, the cohesion objective lies within the bounds of the per-bucket cohesion values (it is their mean) |
| LongObjectiveChromosome.MeanBounds | src/main/java/com/buchmais/sarf/classification/criterion/cohesion/LongObjectiveChromosome.java:80 | the mean of values in [lo, hi] lies in [lo, hi] |
| LongObjectiveChromosome.CohesionObjective | src/main/java/com/buchmais/sarf/classification/criterion/cohesion/LongObjectiveChromosome.java:63-97 | a degenerate grouping (some bucket of cohesion 0) has cohesion objective -1, whatever the other buckets give; a valid grouping's objective is by definition the mean of the bucket cohesions, which `ValidCohesionIsMean` bounds |
| LongObjectiveChromosome.RangeBounds | src/main/java/com/buchmais/sarf/classification/criterion/cohesion/LongObjectiveChromosome.java:82-83 | the range objective lies in [-1, 0] and is 0 exactly when all buckets have the same size |
| LongObjectiveChromosome.RangeObjectiveBounds | src/main/java/com/buchmais/sarf/classification/criterion/cohesion/LongObjectiveChromosome.java:82-83 | (min - max)/(n - 1) lies in [-1, 0] for sizes 1 <= min <= max <= n, and is 0 exactly when min == max |
| LongObjectiveChromosome.RangeObjective | src/main/java/com/buchmais/sarf/classification/criterion/cohesion/LongObjectiveChromosome.java:82-83 | (min size - max size) / (n - 1) is 0 when the sizes are equal and negative when they differ |
| LongObjectiveChromosome.SpreadBounds | src/main/java/com/buchmais/sarf/classification/criterion/cohesion/LongObjectiveChromosome.java:82-83 | the same for the smallest and largest bucket of a grouping |
| LongObjectiveChromosome.SizeBounds | src/main/java/com/buchmais/sarf/classification/criterion/cohesion/LongObjectiveChromosome.java:85 | the size objective, minus the share of singleton buckets, lies in [-1, 0] |
| LongObjectiveChromosome.SizeObjective | src/main/java/com/buchmais/sarf/classification/criterion/cohesion/LongObjectiveChromosome.java:85 | minus the share of one-member buckets: 0 with none, -1 when every bucket has one member |
| LongObjectiveChromosome.CountObjectiveBounds | src/main/java/com/buchmais/sarf/classification/criterion/cohesion/LongObjectiveChromosome.java:87-90 | the count objective lies in [0, 1] for 1 <= k <= n, and is 1 at k = n/4 |
| LongObjectiveChromosome.CountObjective | src/main/java/com/buchmais/sarf/classification/criterion/cohesion/LongObjectiveChromosome.java:87-90 | the piecewise count formula is 0 for no buckets and for one bucket per id |
| LongObjectiveChromosome.CountBounds | src/main/java/com/buchmais/sarf/classification/criterion/cohesion/LongObjectiveChromosome.java:87-90 | the count objective of an evaluation lies in [0, 1] |
| LongObjectiveChromosome.PairCouplingNonNegative | src/main/java/com/buchmais/sarf/classification/criterion/cohesion/LongObjectiveChromosome.java:71-78 | with non-negative pairwise coupling, the sum over ordered pairs of distinct buckets is non-negative |
| LongObjectiveChromosome.PairCouplingOfTwo | src/main/java/com/buchmais/sarf/classification/criterion/cohesion/LongObjectiveChromosome.java:71-78 | with two buckets, the coupling sum counts both directions of the one pair |
| LongObjectiveChromosome.PairCouplingOfOne | src/main/java/com/buchmais/sarf/classification/criterion/cohesion/LongObjectiveChromosome.java:71-78 | a bucket is never coupled with itself: one bucket gives coupling sum 0 |
| LongObjectiveChromosome.CouplingCohesion | src/main/java/com/buchmais/sarf/classification/criterion/cohesion/LongObjectiveCouplingChromosome.java:27 | the concrete cohesion is the intra-component sum divided by the member count |
| LongObjectiveChromosome.EmptyGraphIsInvalid | src/main/java/com/buchmais/sarf/classification/criterion/cohesion/LongObjectiveChromosome.java:64-97 | with no intra-component coupling at all, every chromosome is degenerate and its cohesion is -1 |
| LongObjectiveChromosome.OutgoingSum | src/main/java/com/buchmais/sarf/classification/criterion/cohesion/LongObjectiveChromosome.java:73-77 | the inner loop sums a bucket's coupling to every other bucket |
| LongObjectiveChromosome.SumObjectives | src/main/java/com/buchmais/sarf/classification/criterion/cohesion/LongObjectiveChromosome.java:63-78 | the outer loop flags invalidity exactly for a degenerate grouping, sums cohesion when valid, and subtracts the coupling of every ordered pair |
| LongObjectiveChromosome.SmallestSize | src/main/java/com/buchmais/sarf/classification/criterion/cohesion/LongObjectiveChromosome.java:82 | the smallest bucket size, or 0 with no buckets (`min().orElse(0)`) |
| LongObjectiveChromosome.LargestSize | src/main/java/com/buchmais/sarf/classification/criterion/cohesion/LongObjectiveChromosome.java:82-83 | the largest bucket size, or 0 with no buckets |
| LongObjectiveChromosome.SingletonCount | src/main/java/com/buchmais/sarf/classification/criterion/cohesion/LongObjectiveChromosome.java:85 | the number of buckets with one member |
| LongObjectiveChromosome.EvaluateObjectives | src/main/java/com/buchmais/sarf/classification/criterion/cohesion/LongObjectiveChromosome.java:49-97 | the evaluation computes exactly the specified five objectives |
| LongObjectiveChromosome.ComponentObjectives | src/main/java/com/buchmais/sarf/classification/criterion/cohesion/LongObjectiveChromosome.java:63-97 | the objectives of a given grouping |
| LongObjectiveChromosome.CohesionAndCoupling | src/main/java/com/buchmais/sarf/classification/criterion/cohesion/LongObjectiveChromosome.java:63-97 | cohesion is the mean or -1, and the coupling sum is the negated pair coupling |
| LongObjectiveChromosome.Chromosome.constructor | src/main/java/com/buchmais/sarf/classification/criterion/cohesion/LongObjectiveChromosome.java:21-47 | a new chromosome is unevaluated, with all objectives 0 |
| LongObjectiveChromosome.Chromosome.Evaluate | src/main/java/com/buchmais/sarf/classification/criterion/cohesion/LongObjectiveChromosome.java:49-103 | the fields then hold the specified objectives and the chromosome is marked evaluated |
| LongObjectiveChromosome.Chromosome.GetCohesionObjective | src/main/java/com/buchmais/sarf/classification/criterion/cohesion/LongObjectiveChromosome.java:113-116 | returns the evaluated cohesion; evaluates only on the first call and changes nothing afterwards |
| LongObjectiveChromosome.Chromosome.GetCouplingObjective | src/main/java/com/buchmais/sarf/classification/criterion/cohesion/LongObjectiveChromosome.java:118-121 | the same for coupling |
| LongObjectiveChromosome.Chromosome.GetComponentSizeObjective | src/main/java/com/buchmais/sarf/classification/criterion/cohesion/LongObjectiveChromosome.java:123-126 | the same for the size objective |
| LongObjectiveChromosome.Chromosome.GetComponentRangeObjective | src/main/java/com/buchmais/sarf/classification/criterion/cohesion/LongObjectiveChromosome.java:128-131 | the same for the range objective |
| LongObjectiveChromosome.Chromosome.GetComponentCountObjective | src/main/java/com/buchmais/sarf/classification/criterion/cohesion/LongObjectiveChromosome.java:133-136 | the same for the count objective |
| LongObjectiveChromosome.Chromosome.Dominates | src/main/java/com/buchmais/sarf/classification/criterion/cohesion/LongObjectiveChromosome.java:142-186 | evaluates only the receiver, then compares its objectives with the argument's fields as they are; a chromosome never dominates itself |
| CohesionCriterionExecutor.PackagePartitioning | sar-framework-core/src/main/java/com/buschmais/sarf/core/plugin/cohesion/CohesionCriterionExecutor.java:198-219 | keys 0 .. p-1 for p distinct packages; every id is in exactly one bucket, buckets hold only the given ids, and two ids share a bucket exactly when their packages are equal |
| CohesionCriterionExecutor.NumberGroups | sar-framework-core/src/main/java/com/buschmais/sarf/core/plugin/cohesion/CohesionCriterionExecutor.java:212-217 | the running counter numbers the groups 0 .. n-1, one-to-one, each key holding its group's value |
| CohesionCriterionExecutor.GroupsArePackages | sar-framework-core/src/main/java/com/buschmais/sarf/core/plugin/cohesion/CohesionCriterionExecutor.java:200-211 | the merge loop groups the ids by package name, with no empty group |
| CohesionCriterionExecutor.FirstMatch | sar-framework-core/src/main/java/com/buschmais/sarf/core/plugin/cohesion/CohesionCriterionExecutor.java:233-248 | the position of the first candidate that holds the type, or none when no candidate does |
| CohesionCriterionExecutor.CandidatePartitioning | sar-framework-core/src/main/java/com/buschmais/sarf/core/plugin/cohesion/CohesionCriterionExecutor.java:229-251 | a type lies in bucket k exactly when candidate k is the first that holds it; unmatched types lie in no bucket |
| CohesionCriterionExecutor.PartitioningFromGroups | sar-framework-core/src/main/java/com/buschmais/sarf/core/plugin/cohesion/CohesionCriterionExecutor.java:260-268 | keys 0 .. n-1, each bucket a singleton, every group id in exactly one bucket |
| CohesionCriterionExecutor.SingletonsFromGroups | sar-framework-core/src/main/java/com/buschmais/sarf/core/plugin/cohesion/CohesionCriterionExecutor.java:260-268 | for the sorted listing of the group ids, the partitioning has keys 0 .. n-1, one singleton bucket per listed id and no two keys with the same bucket |
| CohesionCriterionExecutor.MaxOrZero | sar-framework-core/src/main/java/com/buschmais/sarf/core/plugin/cohesion/CohesionCriterionExecutor.java:106 | the largest id, or 0 for no ids |
| CohesionCriterionExecutor.Int32 | sar-framework-core/src/main/java/com/buschmais/sarf/core/plugin/cohesion/CohesionCriterionExecutor.java:106 | the `(int)` cast: congruent modulo 2^32, within the int range, the identity on it |
| CohesionCriterionExecutor.ProblemSize | sar-framework-core/src/main/java/com/buschmais/sarf/core/plugin/cohesion/CohesionCriterionExecutor.java:106-107 | the problem size is max id + 1, which is 1 for no ids |
| CohesionCriterionExecutor.ProblemSizeWraps | sar-framework-core/src/main/java/com/buschmais/sarf/core/plugin/cohesion/CohesionCriterionExecutor.java:106-107 | an id of 2^31 - 1 wraps the size to -2^31 |
| CohesionCriterionExecutor.ComponentName | sar-framework-core/src/main/java/com/buschmais/sarf/core/plugin/cohesion/CohesionCriterionExecutor.java:144 | the generated name starts with "COH"; `NameInjective` states that it determines iteration, level and key |
| CohesionCriterionExecutor.NameInjective | sar-framework-core/src/main/java/com/buschmais/sarf/core/plugin/cohesion/CohesionCriterionExecutor.java:144 | the name "COH" + iteration + "L" + level + "#" + key determines iteration, level and key |
| CohesionCriterionExecutor.CountWords | sar-framework-core/src/main/java/com/buschmais/sarf/core/plugin/cohesion/CohesionCriterionExecutor.java:156-168 | every token of every contained type's name is counted once per occurrence, except "$" and all-digit tokens |
| CohesionCriterionExecutor.CountTokens | sar-framework-core/src/main/java/com/buschmais/sarf/core/plugin/cohesion/CohesionCriterionExecutor.java:159-167 | the inner merge loop adds one type's tokens to the counts |
| CohesionCriterionExecutor.CountsCharacterized | sar-framework-core/src/main/java/com/buschmais/sarf/core/plugin/cohesion/CohesionCriterionExecutor.java:156-168 | a word is counted exactly when it is a counted token of some contained type's name |
| CohesionCriterionExecutor.MostFrequent | sar-framework-core/src/main/java/com/buschmais/sarf/core/plugin/cohesion/CohesionCriterionExecutor.java:169-172 | a word of the highest count among the candidates |
| CohesionCriterionExecutor.TopWords | sar-framework-core/src/main/java/com/buschmais/sarf/core/plugin/cohesion/CohesionCriterionExecutor.java:169-173 | min(10, number of words) distinct words in non-increasing count order, none left out more frequent than one kept |
| CohesionCriterionExecutor.SplitMembers | sar-framework-core/src/main/java/com/buschmais/sarf/core/plugin/cohesion/CohesionCriterionExecutor.java:145-153 | each member of a bucket goes to exactly one of the contained components (if it is a component) or the contained types |
| CohesionCriterionExecutor.MaterializeBucket | sar-framework-core/src/main/java/com/buschmais/sarf/core/plugin/cohesion/CohesionCriterionExecutor.java:142-173 | creates one fresh component of shape "Component" with the COH name, the bucket's members split into components and types, and the top words of its types at any depth; older nodes are unchanged |
| CohesionCriterionExecutor.StoreTopWords | sar-framework-core/src/main/java/com/buschmais/sarf/core/plugin/cohesion/CohesionCriterionExecutor.java:155-173 | the stored top words are those of the component's types at any depth |
| CohesionCriterionExecutor.MaterializeGroups | sar-framework-core/src/main/java/com/buschmais/sarf/core/plugin/cohesion/CohesionCriterionExecutor.java:134-178 | a singleton bucket without `typeWrapper` contributes its member unchanged; every other bucket yields one new, distinct, materialised component; the result has at most as many ids as there are buckets; with `typeWrapper` every result is a new component |
| CohesionCriterionExecutor.StageComplete | sar-framework-core/src/main/java/com/buschmais/sarf/core/plugin/cohesion/CohesionCriterionExecutor.java:138-177 | after all buckets, the bookkeeping gives the properties of `MaterializeGroups` |
| CohesionCriterionExecutor.NewNodesClustered | sar-framework-core/src/main/java/com/buschmais/sarf/core/plugin/cohesion/CohesionCriterionExecutor.java:134-178 | every node a materialisation adds is among the results and is a "Component" with a COH name, materialised from its bucket |
| CohesionCriterionExecutor.FromBucketsGrow | sar-framework-core/src/main/java/com/buschmais/sarf/core/plugin/cohesion/CohesionCriterionExecutor.java:69-97 | the components a later level adds leave the materialisations of earlier levels intact, so every node the loop adds stays materialised from its bucket |
| CohesionCriterionExecutor.WrappedAll | sar-framework-core/src/main/java/com/buschmais/sarf/core/plugin/cohesion/CohesionCriterionExecutor.java:75 | with `typeWrapper` (no hierarchy) every bucket is materialised as its own new component, so there are at least as many results as buckets |
| CohesionCriterionExecutor.ResultsCharacterized | sar-framework-core/src/main/java/com/buschmais/sarf/core/plugin/cohesion/CohesionCriterionExecutor.java:138-154 | an id is a result exactly when it is the only member of a passed-through singleton bucket or a new component materialised from a bucket that is not passed through; each such bucket has its component among the results |
| CohesionCriterionExecutor.LevelOutcome | sar-framework-core/src/main/java/com/buschmais/sarf/core/plugin/cohesion/CohesionCriterionExecutor.java:138-177 | one level's results are characterised as above, every new node is a COH "Component" among them, and without hierarchy there is exactly one result per bucket |
| CohesionCriterionExecutor.LevelDeep | sar-framework-core/src/main/java/com/buschmais/sarf/core/plugin/cohesion/CohesionCriterionExecutor.java:138-155 | over buckets covering the ids, the results of a level stand, at any depth, for exactly the types the ids stood for: none lost, none added |
| CohesionCriterionExecutor.SingleResultIsNew | sar-framework-core/src/main/java/com/buschmais/sarf/core/plugin/cohesion/CohesionCriterionExecutor.java:75-97 | over at least two distinct ids in non-empty buckets the level has a result, and a single result is a new component, which the final `findById` finds |
| CohesionCriterionExecutor.PassesAll | sar-framework-core/src/main/java/com/buschmais/sarf/core/plugin/cohesion/CohesionCriterionExecutor.java:75-97 | with hierarchy, fewer than two distinct ids in non-empty buckets are passed through unchanged, so the loop stops at once |
| CohesionCriterionExecutor.LevelResults | sar-framework-core/src/main/java/com/buschmais/sarf/core/plugin/cohesion/CohesionCriterionExecutor.java:75-97 | the two facts above for the results of one level |
| CohesionCriterionExecutor.SingletonLevelStalls | sar-framework-core/src/main/java/com/buschmais/sarf/core/plugin/cohesion/CohesionCriterionExecutor.java:138-141 | with hierarchy, a level whose partition gives every id its own bucket yields exactly its ids, so the next level starts from the same ids |
| CohesionCriterionExecutor.SortedIds | sar-framework-core/src/main/java/com/buschmais/sarf/core/plugin/cohesion/CohesionCriterionExecutor.java:86 | the identified ids in strictly ascending order, each exactly once |
| CohesionCriterionExecutor.ClusterLevel | sar-framework-core/src/main/java/com/buschmais/sarf/core/plugin/cohesion/CohesionCriterionExecutor.java:71-75 | one level: the search's partition of the ids, materialised; a result is exactly the only member of a passed-through singleton bucket or a new component materialised from a bucket at this level, and every other bucket has its component among the results; at most one result per bucket; every new node is a COH "Component" among the results; without hierarchy exactly one new component per bucket; over two distinct covered ids a single result is a new component; with hierarchy fewer than two distinct ids are returned unchanged |
| CohesionCriterionExecutor.NextLevel | sar-framework-core/src/main/java/com/buschmais/sarf/core/plugin/cohesion/CohesionCriterionExecutor.java:71-96 | one hierarchical pass: `next` lists exactly the level's results (as characterised for `ClusterLevel`) in ascending order, and `nextInit` gives them keys 0 .. |next|-1, one singleton bucket per id; the results stand for exactly the types the ids stood for; fewer ids than before when there were several; a single id after two distinct ones is a new component |
| CohesionCriterionExecutor.LevelsStep | sar-framework-core/src/main/java/com/buschmais/sarf/core/plugin/cohesion/CohesionCriterionExecutor.java:69-97 | one more hierarchical level keeps the loop's invariant: older nodes unchanged, new nodes materialised COH components, the current ids standing for exactly the given types, and fewer ids after each level that leaves more than one |
| CohesionCriterionExecutor.Levels | sar-framework-core/src/main/java/com/buschmais/sarf/core/plugin/cohesion/CohesionCriterionExecutor.java:68-97 | when every level's partition covers its ids with fewer buckets than ids (`Shrinks`), the do-while loop stops with at most one id left, which stands for all the given types and is a new component exactly when at least two distinct types were given |
| CohesionCriterionExecutor.RootDeep | sar-framework-core/src/main/java/com/buschmais/sarf/core/plugin/cohesion/CohesionCriterionExecutor.java:97-102 | the single id left at the top, a component, contains every given type at some depth |
| CohesionCriterionExecutor.Cluster | sar-framework-core/src/main/java/com/buschmais/sarf/core/plugin/cohesion/CohesionCriterionExecutor.java:51-103 | without hierarchy: succeeds with exactly the new components, one per bucket of the search's partition, each materialised from its bucket; with hierarchy: succeeds exactly when at least two distinct types are given, with one new component that contains every given type at some depth; every new node is a COH "Component" materialised from some bucket at some level; older nodes are unchanged |
| CohesionCriterionExecutor.ExecuteByPackages | sar-framework-core/src/main/java/com/buschmais/sarf/core/plugin/cohesion/CohesionCriterionExecutor.java:37-42 | starts from the partitioning by package (as `PackagePartitioning` states it), then has every property of `Cluster` |
| CohesionCriterionExecutor.ExecuteByCandidates | sar-framework-core/src/main/java/com/buschmais/sarf/core/plugin/cohesion/CohesionCriterionExecutor.java:44-49 | starts from the partitioning by first matching candidate (as `CandidatePartitioning` states it), then has every property of `Cluster` |
| ComponentStore.Store.Create | sar-framework-core/src/main/java/com/buschmais/sarf/core/plugin/cohesion/CohesionCriterionExecutor.java:142-143 | a new node with a fresh id; the other nodes are unchanged |
| ComponentStore.Store.ContainedTypesRecursively | sar-framework-core/src/main/java/com/buschmais/sarf/core/plugin/cohesion/CohesionCriterionExecutor.java:155 | the types at any depth include the directly contained ones and are all type nodes |
| ComponentStore.DeepTypesGrow | sar-framework-core/src/main/java/com/buschmais/sarf/core/plugin/cohesion/CohesionCriterionExecutor.java:155 | adding nodes to a store whose contained components are all nodes leaves the types every older node contains at any depth unchanged |
| ComponentStore.DeepTypes | sar-framework-core/src/main/java/com/buschmais/sarf/core/plugin/cohesion/CohesionCriterionExecutor.java:155 | the types a component contains at any depth include its direct types; a node that is not a component contains none |
| ComponentStore.Store.SetTopWords | sar-framework-core/src/main/java/com/buschmais/sarf/core/plugin/cohesion/CohesionCriterionExecutor.java:173 | only the top words of the given component change; the other nodes and every containment are unchanged, so the store stays valid |
| ComponentStore.Store.FindComponent | src/main/java/com/buschmais/sarf/plugin/api/criterion/RuleBasedCriterionExecutor.java:110-113 | some component with the given shape and name, or none when there is no such component |
| TypeCouplingEnricher.Divide | src/main/java/com/buchmais/sarf/classification/configuration/TypeCouplingEnricher.java:81-82 | a count over a total is NaN exactly when the total is 0, otherwise the non-negative quotient |
| TypeCouplingEnricher.RatioTerm | src/main/java/com/buchmais/sarf/classification/configuration/TypeCouplingEnricher.java:79-91 | the sum of both directions' fractions, NaN replaced by 0, is non-negative |
| TypeCouplingEnricher.InvokesTerm | src/main/java/com/buchmais/sarf/classification/configuration/TypeCouplingEnricher.java:79-84 | invocations each way over twice the caller's external invocations: 0 when either total is 0 (NaN), otherwise the sum of the two fractions, never negative |
| TypeCouplingEnricher.InvokesStaticTerm | src/main/java/com/buchmais/sarf/classification/configuration/TypeCouplingEnricher.java:86-91 | the same for static invocations |
| TypeCouplingEnricher.ReturnsTerm | src/main/java/com/buchmais/sarf/classification/configuration/TypeCouplingEnricher.java:103-109 | the same for methods returning the other type, over twice the method count |
| TypeCouplingEnricher.ParameterizedTerm | src/main/java/com/buchmais/sarf/classification/configuration/TypeCouplingEnricher.java:111-117 | the same for methods with a parameter of the other type, over twice the method count |
| TypeCouplingEnricher.ReadsTerm | src/main/java/com/buchmais/sarf/classification/configuration/TypeCouplingEnricher.java:119-126 | the squared field reads each way over twice the reader's external reads times the owner's reads by others: 0 when either total is 0, otherwise the sum of the two fractions |
| TypeCouplingEnricher.ReadsStaticTerm | src/main/java/com/buchmais/sarf/classification/configuration/TypeCouplingEnricher.java:128-135 | the same for static field reads |
| TypeCouplingEnricher.WritesTerm | src/main/java/com/buchmais/sarf/classification/configuration/TypeCouplingEnricher.java:137-144 | the same for field writes |
| TypeCouplingEnricher.WritesStaticTerm | src/main/java/com/buchmais/sarf/classification/configuration/TypeCouplingEnricher.java:146-153 | the same for static field writes |
| TypeCouplingEnricher.NaNZeroesRatioTerm | src/main/java/com/buchmais/sarf/classification/configuration/TypeCouplingEnricher.java:79-153 | a zero total in either direction makes the term 0; otherwise it is the sum of the two quotients |
| TypeCouplingEnricher.RatioTermSymmetric | src/main/java/com/buchmais/sarf/classification/configuration/TypeCouplingEnricher.java:79-153 | swapping the directions leaves a ratio term unchanged |
| TypeCouplingEnricher.ExtendsTerm | src/main/java/com/buchmais/sarf/classification/configuration/TypeCouplingEnricher.java:93-96 | in {0, 1, 2}: 0 exactly when neither type extends the other, 2 exactly when both do |
| TypeCouplingEnricher.ImplementsTerm | src/main/java/com/buchmais/sarf/classification/configuration/TypeCouplingEnricher.java:98-101 | the same for implements |
| TypeCouplingEnricher.ComposesTerm | src/main/java/com/buchmais/sarf/classification/configuration/TypeCouplingEnricher.java:155-158 | in {0, 1}, and 1 exactly when the first type composes the second (both summands test the same direction) |
| TypeCouplingEnricher.InnerClassTerm | src/main/java/com/buchmais/sarf/classification/configuration/TypeCouplingEnricher.java:160-163 | in {0, 1}, and 1 exactly when either type declares the other as inner class |
| TypeCouplingEnricher.TermsNonNegative | src/main/java/com/buchmais/sarf/classification/configuration/TypeCouplingEnricher.java:79-163 | all twelve terms are non-negative |
| TypeCouplingEnricher.TermsSymmetricButComposes | src/main/java/com/buchmais/sarf/classification/configuration/TypeCouplingEnricher.java:79-163 | every term except composes is unchanged when the two types are swapped |
| TypeCouplingEnricher.Coupling | src/main/java/com/buchmais/sarf/classification/configuration/TypeCouplingEnricher.java:36-77 | with non-negative weights, the coupling lies between 0 and the largest of the twelve terms, and is 0 when all weights are 0 (the NaN of 0/0 replaced by 0) |
| TypeCouplingEnricher.CouplingSymmetric | src/main/java/com/buchmais/sarf/classification/configuration/TypeCouplingEnricher.java:36-77 | the coupling of (a, b) and of (b, a) can differ only through the composes relation |
| TypeCouplingEnricher.CouplingIsWeightedMean | src/main/java/com/buchmais/sarf/classification/configuration/TypeCouplingEnricher.java:36-77 | the coupling is the weighted mean of the terms, so it lies within their bounds; all-zero weights give 0 (NaN replaced by 0) |
| TypeCouplingEnricher.Enrich | src/main/java/com/buchmais/sarf/classification/configuration/TypeCouplingEnricher.java:17-34 | a coupling is stored for a (type, dependency) pair exactly when the pair is visited and its coupling is strictly positive, and the stored value is that coupling |
| TypeCouplingEnricher.EnrichType | src/main/java/com/buchmais/sarf/classification/configuration/TypeCouplingEnricher.java:23-30 | the inner loop adds exactly the positive couplings of one type |
| RuleBasedCriterionExecutor.CompareStringsZero | src/main/java/com/buschmais/sarf/plugin/api/criterion/RuleBasedCriterionExecutor.java:50-51 | `compareTo` is 0 exactly on equal strings |
| RuleBasedCriterionExecutor.CompareStringsAntisymmetric | src/main/java/com/buschmais/sarf/plugin/api/criterion/RuleBasedCriterionExecutor.java:50-51 | swapping the strings negates `compareTo` |
| RuleBasedCriterionExecutor.CompareStringsTransitive | src/main/java/com/buschmais/sarf/plugin/api/criterion/RuleBasedCriterionExecutor.java:50-51 | "comes before" is transitive |
| RuleBasedCriterionExecutor.CompareStrings | src/main/java/com/buschmais/sarf/plugin/api/criterion/RuleBasedCriterionExecutor.java:50-51 | `String.compareTo`: the length difference when one string is a prefix of the other, otherwise the difference of the first differing characters |
| RuleBasedCriterionExecutor.CompareRefsZero | src/main/java/com/buschmais/sarf/plugin/api/criterion/RuleBasedCriterionExecutor.java:48-54 | the comparator is 0 exactly on equal shape and name |
| RuleBasedCriterionExecutor.CompareRefsAntisymmetric | src/main/java/com/buschmais/sarf/plugin/api/criterion/RuleBasedCriterionExecutor.java:48-54 | the comparator is antisymmetric |
| RuleBasedCriterionExecutor.CompareRefsTransitive | src/main/java/com/buschmais/sarf/plugin/api/criterion/RuleBasedCriterionExecutor.java:48-54 | the comparator is transitive |
| RuleBasedCriterionExecutor.CompareRefs | src/main/java/com/buschmais/sarf/plugin/api/criterion/RuleBasedCriterionExecutor.java:48-54 | the shapes' comparison when the shapes differ, otherwise the names' comparison |
| RuleBasedCriterionExecutor.Add | src/main/java/com/buschmais/sarf/plugin/api/criterion/RuleBasedCriterionExecutor.java:89 | `TreeSet.add` keeps the set strictly ordered by shape, then name; a component with the shape and name of one already present leaves the set unchanged, any other is added |
| RuleBasedCriterionExecutor.AddMembers | src/main/java/com/buschmais/sarf/plugin/api/criterion/RuleBasedCriterionExecutor.java:89 | after `add` the set holds its earlier elements and a component of the added key, and nothing else |
| RuleBasedCriterionExecutor.GetOrCreate | src/main/java/com/buschmais/sarf/plugin/api/criterion/RuleBasedCriterionExecutor.java:108-120 | reuses an existing component of the rule's shape and name, changing nothing; otherwise creates an empty one with that shape and name |
| RuleBasedCriterionExecutor.EveryTypeClassified | src/main/java/com/buschmais/sarf/plugin/api/criterion/RuleBasedCriterionExecutor.java:66-73 | every type a rule matched has its classification in the rule's block |
| RuleBasedCriterionExecutor.Merge | src/main/java/com/buschmais/sarf/plugin/api/criterion/RuleBasedCriterionExecutor.java:74-87 | recording a match adds exactly the component's name under its shape for the type's name |
| RuleBasedCriterionExecutor.MergeRepresents | src/main/java/com/buschmais/sarf/plugin/api/criterion/RuleBasedCriterionExecutor.java:74-87 | recording a match keeps `mappedTypes` an exact record of the matches so far |
| RuleBasedCriterionExecutor.RepresentedKeys | src/main/java/com/buschmais/sarf/plugin/api/criterion/RuleBasedCriterionExecutor.java:74-87 | a type name is a key of `mappedTypes` exactly when some recorded match is about it |
| RuleBasedCriterionExecutor.AllMatchesCharacterized | src/main/java/com/buschmais/sarf/plugin/api/criterion/RuleBasedCriterionExecutor.java:59-90 | a match comes from some rule and some type that rule matched |
| RuleBasedCriterionExecutor.MappedTypesMeaning | src/main/java/com/buschmais/sarf/plugin/api/criterion/RuleBasedCriterionExecutor.java:66-88 | after all rules, a type name is a key exactly when some rule matched a type of that name, and a name is listed under a shape for it exactly when a rule of that shape and name matched such a type |
| RuleBasedCriterionExecutor.ClassifyTypes | src/main/java/com/buschmais/sarf/plugin/api/criterion/RuleBasedCriterionExecutor.java:66-88 | appends one classification per matched type (its component, the rule, weight / 100, the iteration), each type once, and records each match |
| RuleBasedCriterionExecutor.AnySeveral | src/main/java/com/buschmais/sarf/plugin/api/criterion/RuleBasedCriterionExecutor.java:93-98 | the inner loop with `break` finds whether some shape maps to more than one component name |
| RuleBasedCriterionExecutor.CountMultiplyMatched | src/main/java/com/buschmais/sarf/plugin/api/criterion/RuleBasedCriterionExecutor.java:91-99 | counts each type name once when some shape maps to more than one name; at most the number of type names |
| RuleBasedCriterionExecutor.Quality | src/main/java/com/buschmais/sarf/plugin/api/criterion/RuleBasedCriterionExecutor.java:104 | 1 - multipleMatched / n is NaN exactly when n = 0; otherwise it lies in [0, 1] and is 1 exactly when no type is multiply matched |
| RuleBasedCriterionExecutor.StageComplete | src/main/java/com/buschmais/sarf/plugin/api/criterion/RuleBasedCriterionExecutor.java:59-90 | after the last rule, the bookkeeping gives the properties of `Execute` |
| RuleBasedCriterionExecutor.ExecuteRule | src/main/java/com/buschmais/sarf/plugin/api/criterion/RuleBasedCriterionExecutor.java:60-89 | one pass of the rule loop advances the bookkeeping by one rule; the only node it may add is an empty component of the rule's shape and name |
| RuleBasedCriterionExecutor.FromRulesStep | src/main/java/com/buschmais/sarf/plugin/api/criterion/RuleBasedCriterionExecutor.java:63 | finding the next rule's component, or creating it empty, keeps every added node an empty component of a rule handled so far |
| RuleBasedCriterionExecutor.Execute | src/main/java/com/buschmais/sarf/plugin/api/criterion/RuleBasedCriterionExecutor.java:45-105 | the result set is ordered, holds a component of every rule's shape and name and only such store components; `mappedTypes` records exactly the matches; one block of classifications per rule; `multipleMatched` is counted as above; older store nodes are unchanged, and every added node is an empty component of some rule's shape and name |

## Left out

- Store, transactions, Spring bean lookup and logging are not modelled. This covers the Cypher
  queries of `createProblem`, the `compute*` coupling queries between levels, and the coverage and
  quality log lines. The quality formula is modelled as `Quality`; the coverage ratio is not.
- The evolutionary search, `Partitioner.partition`, is a parameter. Without hierarchy the model
  only relies on its buckets holding the given ids (`Within`). With hierarchy it relies on the
  explicit hypothesis `Shrinks`: the buckets cover the ids, none is empty, and there are fewer
  buckets than ids when there is more than one id. The level loop terminates and the result is as
  stated only under that hypothesis. The source does not guarantee it (see "## Findings").
- The camel-case splitting of type names is a parameter giving the tokens of each type.
- The order of words with equal counts in the top-word ranking is not fixed. It depends on hash-map
  iteration.
- Floating point is modelled as `real`. NaN is modelled where the source tests for it. Infinity (a
  positive count over a zero total) is excluded by the precondition `Finite`. So are `long`
  overflow in the reads/writes denominators and the double rounding of every operation.
- `LongObjectiveChromosome.Chromosome.Evaluate`: requires at least two ids. With one id the range
  objective divides by zero, which is left out as a floating-point case.
- `LongObjectiveChromosome.Chromosome.GetCohesionObjective`, `GetCouplingObjective`,
  `GetComponentSizeObjective`, `GetComponentRangeObjective`, `GetComponentCountObjective` and
  `Dominates`: require at least two ids too, because each may run the lazy evaluation above.
- `LongObjectiveChromosome.EvaluateObjectives`, `ComponentObjectives`, `RangeObjective` and the
  lemmas about an evaluation's objectives: require at least two ids for the same reason.
- `Objects.equals` on boxed doubles is modelled as equality of reals.
- The benchmark output (`writeBenchmarkLine`, MoJo, MQ) and the debug printing of the ordered
  coupling set in `enrich` are not modelled.
- `LongObjectiveChromosome.ValidCohesionIsMean`: states that the mean lies within the bounds of the
  per-bucket values rather than restating the mean.
- `findById` is modelled by membership in the store. `ClassCastException` for a type id becomes the
  "is a component" test when members are split, and becomes `Failure` for the final `ids[0]`
  lookup. An empty id array at that point is `Failure` too (an array index error in the source).
- `CohesionCriterionExecutor.MaterializeBucket`: the members are split before the component node is
  created, not added after creating it; the resulting node is the same.
- `CohesionCriterionExecutor.SortedIds`: returns a strictly ascending sequence of the identified ids,
  not a Java `long[]`.
- `CohesionCriterionExecutor.ProblemSize`: models the `(int)` cast and the int addition; the
  `Problem` construction itself is not modelled.
- `RuleBasedCriterionExecutor.GetOrCreate`: the restriction to components of the current iteration
  is a repository query that is not part of this model; any component of the shape and name is
  reused.
- `RuleBasedCriterionExecutor.Execute`: the rules are given as a sequence in place of the source's
  `Set`, so every iteration order is covered. The rule weight is a `real` (the rule descriptor's
  weight type is not part of this model).
- `RuleBasedCriterionExecutor.Rule`: a rule is identified by the id of the node that holds it
  (`node`), so two rules with the same shape, name and weight are still two rules. Its matcher is
  the `matches` parameter; the rule descriptor's own fields are not part of this model.
- `RuleBasedCriterionExecutor.CompareStrings`: compares Dafny characters, where Java compares UTF-16
  code units.
- `TypeCouplingEnricher`: the twelve weight constants are parameters (`Weights`), required to be
  non-negative.

## Findings

| source | as written | input that shows it | evidently intended | confidence | as-written member | corrected member |
|---|---|---|---|---|---|---|
| sar-framework-core/src/main/java/com/buschmais/sarf/core/plugin/cohesion/CohesionCriterionExecutor.java:69-97 | with hierarchy, a singleton bucket passes its id through unchanged, and the do-while loop repeats while more than one id is left | a search that puts each of two or more ids in a bucket of its own: the level yields the same ids, and the same partition of them again never ends the loop | every hierarchical level merges some ids, so the loop reaches one id and stops | not executed; medium: it depends on what the evolutionary search returns | CohesionCriterionExecutor.SingletonLevelStalls | CohesionCriterionExecutor.Levels |
