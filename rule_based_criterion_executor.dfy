/**
 * The bookkeeping of a rule-based criterion: every rule names a component
 * (found by shape and name, or created), the types the rule matches are
 * classified into that component, the components are collected in a set
 * ordered by shape and then name, and the types matched into more than one
 * component of the same shape are counted.
 */
module RuleBasedCriterionExecutor {

  import opened Aggregates
  import opened ComponentStore
  import TypeCouplingEnricher

  // ---------------------------------------------------------------------
  // Java's string order
  // ---------------------------------------------------------------------

  /**
   * `String.compareTo`: the difference of the first pair of differing
   * characters, or of the lengths when one string is a prefix of the other.
   */
  /** Position i is the first one where a and b differ. */
  predicate FirstDifference(a: string, b: string, i: int)
  {
    0 <= i < |a| && i < |b| && a[..i] == b[..i] && a[i] != b[i]
  }

  function CompareStrings(a: string, b: string): (r: int)
    ensures a <= b || b <= a ==> r == |a| - |b|
    ensures !(a <= b || b <= a) ==>
      exists i :: FirstDifference(a, b, i) && r == a[i] as int - b[i] as int
    decreases |a|
  {
    if a == [] || b == [] then |a| - |b|
    else if a[0] != b[0] then
      assert FirstDifference(a, b, 0);
      a[0] as int - b[0] as int
    else
      var r := CompareStrings(a[1..], b[1..]);
      assert a == [a[0]] + a[1..] && b == [b[0]] + b[1..];
      assert a[1..] <= b[1..] || b[1..] <= a[1..] ==> a <= b || b <= a;
      if a[1..] <= b[1..] || b[1..] <= a[1..] then r
      else
        var i :| FirstDifference(a[1..], b[1..], i) && r == a[1..][i] as int - b[1..][i] as int;
        assert a[..i + 1] == [a[0]] + a[1..][..i] && b[..i + 1] == [b[0]] + b[1..][..i];
        assert FirstDifference(a, b, i + 1);
        r
  }

  /** Two strings compare as equal exactly when they are equal. */
  lemma {:induction false} CompareStringsZero(a: string, b: string)
    ensures CompareStrings(a, b) == 0 <==> a == b
    decreases |a|
  {
    if a != [] && b != [] && a[0] == b[0] {
      CompareStringsZero(a[1..], b[1..]);
      assert a == [a[0]] + a[1..] && b == [b[0]] + b[1..];
    }
  }

  /** Swapping the arguments negates the comparison. */
  lemma {:induction false} CompareStringsAntisymmetric(a: string, b: string)
    ensures CompareStrings(a, b) == -CompareStrings(b, a)
    decreases |a|
  {
    if a != [] && b != [] && a[0] == b[0] {
      CompareStringsAntisymmetric(a[1..], b[1..]);
    }
  }

  /** "Comes before" is transitive. */
  lemma {:induction false} CompareStringsTransitive(a: string, b: string, c: string)
    requires CompareStrings(a, b) < 0 && CompareStrings(b, c) < 0
    ensures CompareStrings(a, c) < 0
    decreases |a|
  {
    if a != [] && b != [] && c != [] && a[0] == b[0] && b[0] == c[0] {
      CompareStringsTransitive(a[1..], b[1..], c[1..]);
    }
  }

  // ---------------------------------------------------------------------
  // The ordered component set
  // ---------------------------------------------------------------------

  /** A component in the result set, with the shape and name it is ordered by. */
  datatype ComponentRef = ComponentRef(shape: string, name: string, id: int)

  /** The comparator of the result set: by shape, then by name. */
  function CompareRefs(x: ComponentRef, y: ComponentRef): (r: int)
    ensures x.shape != y.shape ==> r == CompareStrings(x.shape, y.shape)
    ensures x.shape == y.shape ==> r == CompareStrings(x.name, y.name)
  {
    CompareStringsZero(x.shape, y.shape);
    var byShape := CompareStrings(x.shape, y.shape);
    if byShape != 0 then byShape else CompareStrings(x.name, y.name)
  }

  predicate SameKey(x: ComponentRef, y: ComponentRef)
  {
    x.shape == y.shape && x.name == y.name
  }

  /** The comparator is 0 exactly on equal shape and name. */
  lemma CompareRefsZero(x: ComponentRef, y: ComponentRef)
    ensures CompareRefs(x, y) == 0 <==> SameKey(x, y)
  {
    CompareStringsZero(x.shape, y.shape);
    CompareStringsZero(x.name, y.name);
  }

  lemma CompareRefsAntisymmetric(x: ComponentRef, y: ComponentRef)
    ensures CompareRefs(x, y) == -CompareRefs(y, x)
  {
    CompareStringsAntisymmetric(x.shape, y.shape);
    CompareStringsAntisymmetric(x.name, y.name);
  }

  lemma CompareRefsTransitive(x: ComponentRef, y: ComponentRef, z: ComponentRef)
    requires CompareRefs(x, y) < 0 && CompareRefs(y, z) < 0
    ensures CompareRefs(x, z) < 0
  {
    CompareStringsZero(x.shape, y.shape);
    CompareStringsZero(y.shape, z.shape);
    CompareStringsZero(x.shape, z.shape);
    if CompareStrings(x.shape, y.shape) == 0 && CompareStrings(y.shape, z.shape) == 0 {
      CompareStringsTransitive(x.name, y.name, z.name);
    } else if CompareStrings(x.shape, y.shape) == 0 {
      assert x.shape == y.shape;
    } else if CompareStrings(y.shape, z.shape) == 0 {
      assert y.shape == z.shape;
    } else {
      CompareStringsTransitive(x.shape, y.shape, z.shape);
    }
  }

  /** Strictly increasing in the comparator's order. */
  predicate Ordered(s: seq<ComponentRef>)
  {
    forall i, j :: 0 <= i < j < |s| ==> CompareRefs(s[i], s[j]) < 0
  }

  /** Whether the set holds a component of this shape and name. */
  predicate Lists(s: seq<ComponentRef>, shape: string, name: string)
  {
    exists i :: 0 <= i < |s| && s[i].shape == shape && s[i].name == name
  }

  /** Whether the set already holds a component of the same shape and name. */
  predicate HasKey(s: seq<ComponentRef>, x: ComponentRef)
  {
    Lists(s, x.shape, x.name)
  }

  /**
   * `TreeSet.add` with the comparator above: the component is inserted at
   * its place unless one of the same shape and name is already there, in
   * which case the set is unchanged.
   */
  function Add(s: seq<ComponentRef>, x: ComponentRef): (r: seq<ComponentRef>)
    requires Ordered(s)
    ensures Ordered(r)
    ensures HasKey(s, x) ==> r == s
    ensures !HasKey(s, x) ==> |r| == |s| + 1 && forall y :: y in r <==> y in s || y == x
  {
    if s == [] then [x]
    else
      CompareRefsZero(x, s[0]);
      var c := CompareRefs(x, s[0]);
      if c == 0 then
        assert SameKey(s[0], x);
        s
      else if c < 0 then
        AddBefore(s, x);
        [x] + s
      else
        var rest := Add(s[1..], x);
        AddBehind(s, x, rest);
        [s[0]] + rest
  }

  /** A component behind the first element is added to the rest of the set. */
  lemma AddBehind(s: seq<ComponentRef>, x: ComponentRef, rest: seq<ComponentRef>)
    requires s != [] && Ordered(s) && CompareRefs(x, s[0]) > 0
    requires Ordered(rest)
    requires HasKey(s[1..], x) ==> rest == s[1..]
    requires !HasKey(s[1..], x) ==> |rest| == |s| && forall y :: y in rest <==> y in s[1..] || y == x
    ensures Ordered([s[0]] + rest)
    ensures HasKey(s, x) ==> [s[0]] + rest == s
    ensures !HasKey(s, x) ==> |[s[0]] + rest| == |s| + 1 && forall y :: y in [s[0]] + rest <==> y in s || y == x
  {
    CompareRefsAntisymmetric(x, s[0]);
    CompareRefsZero(x, s[0]);
    assert s == [s[0]] + s[1..];
    assert HasKey(s, x) <==> HasKey(s[1..], x) by {
      if HasKey(s, x) {
        var i :| 0 <= i < |s| && s[i].shape == x.shape && s[i].name == x.name;
        assert i > 0 && SameKey(s[1..][i - 1], x);
      }
      if HasKey(s[1..], x) {
        var i :| 0 <= i < |s[1..]| && s[1..][i].shape == x.shape && s[1..][i].name == x.name;
        assert s[i + 1] == s[1..][i];
      }
    }
    forall z | z in rest ensures CompareRefs(s[0], z) < 0 {
      if z != x {
        var j :| 0 <= j < |s[1..]| && s[1..][j] == z;
        assert s[j + 1] == z;
      }
    }
    AddAfter(s[0], rest);
  }

  /** After `Add` the set holds every earlier element and one of the added key, and nothing else. */
  lemma AddMembers(s: seq<ComponentRef>, x: ComponentRef)
    requires Ordered(s)
    ensures HasKey(Add(s, x), x)
    ensures forall y :: y in s ==> y in Add(s, x)
    ensures forall y :: y in Add(s, x) ==> y in s || y == x
  {
    var r := Add(s, x);
    if !HasKey(s, x) {
      assert x in r;
      var j :| 0 <= j < |r| && r[j] == x;
      assert r[j].shape == x.shape && r[j].name == x.name;
    }
  }

  /** A component ahead of the first element goes first. */
  lemma AddBefore(s: seq<ComponentRef>, x: ComponentRef)
    requires s != [] && Ordered(s) && CompareRefs(x, s[0]) < 0
    ensures Ordered([x] + s) && !HasKey(s, x)
  {
    forall j | 0 < j < |s|
      ensures CompareRefs(x, s[j]) < 0
    {
      CompareRefsTransitive(x, s[0], s[j]);
    }
    forall j | 0 <= j < |s|
      ensures !SameKey(s[j], x)
    {
      CompareRefsZero(x, s[j]);
    }
  }

  /** An element ahead of every element of an ordered sequence may lead it. */
  lemma AddAfter(y: ComponentRef, s: seq<ComponentRef>)
    requires Ordered(s) && forall z :: z in s ==> CompareRefs(y, z) < 0
    ensures Ordered([y] + s)
  {
    assert forall j :: 0 <= j < |s| ==> s[j] in s;
  }

  /** A sequence without repetitions, all drawn from `u`, is no longer than `u` is large. */
  lemma {:induction false} DistinctCard<T>(s: seq<T>, u: set<T>)
    requires forall j :: 0 <= j < |s| ==> s[j] in u
    requires forall j, k :: 0 <= j < k < |s| ==> s[j] != s[k]
    ensures |s| <= |u|
  {
    if s != [] {
      var x := s[|s| - 1];
      DistinctCard(s[..|s| - 1], u - {x});
    }
  }

  // ---------------------------------------------------------------------
  // Rules and classifications
  // ---------------------------------------------------------------------

  /**
   * A rule: the node that holds it, the shape and name of the component it
   * classifies into, and its weight. Two rules with the same component and
   * weight are still two rules, each run on its own.
   */
  datatype Rule = Rule(node: int, shape: string, name: string, weight: real)

  /** A classification: a type put into a component by a rule in an iteration. */
  datatype ClassificationInfo = ClassificationInfo(component: int, typeId: int, weight: real, rule: Rule, iteration: int)

  /** The criterion being executed: its rules, its iteration and the classifications made so far. */
  class RuleBasedCriterion {
    const rules: seq<Rule>
    const iteration: int
    var classifications: seq<ClassificationInfo>

    constructor(rules: seq<Rule>, iteration: int)
      ensures this.rules == rules && this.iteration == iteration && classifications == []
    {
      this.rules := rules;
      this.iteration := iteration;
      classifications := [];
    }
  }

  /**
   * The classifications of one rule: as many as it matched types, each type
   * once, each carrying the rule's component, the rule, its weight divided
   * by 100 and the iteration.
   */
  predicate ClassifiesAll(infos: seq<ClassificationInfo>, component: int, rule: Rule, types: set<int>, iteration: int)
  {
    && |infos| == |types|
    && (forall j :: 0 <= j < |infos| ==>
          infos[j].typeId in types &&
          infos[j] == ClassificationInfo(component, infos[j].typeId, rule.weight / 100.0, rule, iteration))
    && (forall j, k :: 0 <= j < k < |infos| ==> infos[j].typeId != infos[k].typeId)
  }

  /** Every matched type has its classification. */
  lemma EveryTypeClassified(infos: seq<ClassificationInfo>, component: int, rule: Rule, types: set<int>,
                            iteration: int, t: int)
    requires ClassifiesAll(infos, component, rule, types, iteration) && t in types
    ensures exists j :: 0 <= j < |infos| && infos[j].typeId == t
  {
    if forall j :: 0 <= j < |infos| ==> infos[j].typeId != t {
      var ids := seq(|infos|, j requires 0 <= j < |infos| => infos[j].typeId);
      assert |types - {t}| == |types| - 1;
      DistinctCard(ids, types - {t});
    }
  }

  // ---------------------------------------------------------------------
  // mappedTypes: fully qualified name -> shape -> component names
  // ---------------------------------------------------------------------

  type Mapping = map<string, map<string, set<string>>>

  /**
   * The update of `mappedTypes` for one match: the component's name joins
   * the names of its shape for the type's name (`merge` with `addAll` when
   * the type is known, a new entry otherwise).
   */
  function Merge(mapped: Mapping, fqn: string, shape: string, name: string): (r: Mapping)
    ensures forall f, sh, n :: f in r && sh in r[f] && n in r[f][sh] <==>
      (f in mapped && sh in mapped[f] && n in mapped[f][sh]) || (f == fqn && sh == shape && n == name)
    ensures forall f :: f in r <==> f in mapped || f == fqn
    ensures forall f, sh :: f in r && sh in r[f] <==> (f in mapped && sh in mapped[f]) || (f == fqn && sh == shape)
  {
    if fqn in mapped then
      mapped[fqn := mapped[fqn][shape := (if shape in mapped[fqn] then mapped[fqn][shape] else {}) + {name}]]
    else
      mapped[fqn := map[shape := {name}]]
  }

  /** A match: a type's name, and the shape and name of the component it was matched into. */
  type Match = (string, string, string)

  /**
   * `mapped` records exactly the matches in `matches`: every name under a
   * shape under a type's name is a match and vice versa, with no empty
   * entries.
   */
  ghost predicate Represents(mapped: Mapping, matches: set<Match>)
  {
    && (forall f, sh, n :: f in mapped && sh in mapped[f] && n in mapped[f][sh] ==> (f, sh, n) in matches)
    && (forall m :: m in matches ==> m.0 in mapped && m.1 in mapped[m.0] && m.2 in mapped[m.0][m.1])
    && (forall f :: f in mapped ==> mapped[f] != map[])
    && (forall f, sh :: f in mapped && sh in mapped[f] ==> mapped[f][sh] != {})
  }

  /** Merging a match records it. */
  lemma MergeRepresents(mapped: Mapping, matches: set<Match>, fqn: string, shape: string, name: string)
    requires Represents(mapped, matches)
    ensures Represents(Merge(mapped, fqn, shape, name), matches + {(fqn, shape, name)})
  {
    var r := Merge(mapped, fqn, shape, name);
    forall f | f in r ensures r[f] != map[] {
      if f == fqn {
        assert shape in r[f];
      } else {
        assert f in mapped && r[f] == mapped[f];
      }
    }
    forall f, sh | f in r && sh in r[f] ensures r[f][sh] != {} {
      if f == fqn && sh == shape {
        assert name in r[f][sh];
      } else {
        assert f in mapped && sh in mapped[f];
        var n := Choose(mapped[f][sh]);
        assert n in r[f][sh];
      }
    }
  }

  /** A type's name is a key of `mapped` exactly when some match is about it. */
  lemma RepresentedKeys(mapped: Mapping, matches: set<Match>, f: string)
    requires Represents(mapped, matches)
    ensures f in mapped <==> exists m :: m in matches && m.0 == f
  {
    if f in mapped {
      var sh := Choose(mapped[f].Keys);
      var n := Choose(mapped[f][sh]);
      assert (f, sh, n) in matches;
    }
  }

  /** The matches of one rule: each matched type into the rule's component. */
  function MatchesOf(rule: Rule, types: set<int>, fqnOf: int -> string): set<Match>
  {
    set t | t in types :: (fqnOf(t), rule.shape, rule.name)
  }

  /** All matches of the rules, in order. */
  ghost function AllMatches(rules: seq<Rule>, matches: Rule -> set<int>, fqnOf: int -> string): set<Match>
  {
    if rules == [] then {}
    else
      AllMatches(rules[..|rules| - 1], matches, fqnOf) + MatchesOf(rules[|rules| - 1], matches(rules[|rules| - 1]), fqnOf)
  }

  /** A match comes from some rule and some type that rule matched. */
  lemma {:induction false} AllMatchesCharacterized(rules: seq<Rule>, matches: Rule -> set<int>, fqnOf: int -> string, m: Match)
    ensures m in AllMatches(rules, matches, fqnOf) <==>
      exists i, t :: 0 <= i < |rules| && t in matches(rules[i]) && m == (fqnOf(t), rules[i].shape, rules[i].name)
    decreases |rules|
  {
    if rules != [] {
      var init := rules[..|rules| - 1];
      AllMatchesCharacterized(init, matches, fqnOf, m);
      assert forall i :: 0 <= i < |init| ==> init[i] == rules[i];
    }
  }

  /**
   * What `mappedTypes` holds after the rules: a type name is a key exactly
   * when some rule matched a type of that name, and a component name is
   * listed under a shape for it exactly when a rule of that shape and name
   * matched such a type.
   */
  lemma MappedTypesMeaning(mapped: Mapping, rules: seq<Rule>, matches: Rule -> set<int>, fqnOf: int -> string,
                           f: string, sh: string, n: string)
    requires Represents(mapped, AllMatches(rules, matches, fqnOf))
    ensures f in mapped <==> exists i, t :: 0 <= i < |rules| && t in matches(rules[i]) && fqnOf(t) == f
    ensures (f in mapped && sh in mapped[f] && n in mapped[f][sh]) <==>
      exists i, t :: 0 <= i < |rules| && t in matches(rules[i]) && fqnOf(t) == f &&
                     rules[i].shape == sh && rules[i].name == n
  {
    MappedKeysMeaning(mapped, rules, matches, fqnOf, f);
    MappedEntriesMeaning(mapped, rules, matches, fqnOf, f, sh, n);
  }

  /** A type name is a key of the mapping exactly when some rule matched a type of that name. */
  lemma MappedKeysMeaning(mapped: Mapping, rules: seq<Rule>, matches: Rule -> set<int>, fqnOf: int -> string, f: string)
    requires Represents(mapped, AllMatches(rules, matches, fqnOf))
    ensures f in mapped <==> exists i, t :: 0 <= i < |rules| && t in matches(rules[i]) && fqnOf(t) == f
  {
    var all := AllMatches(rules, matches, fqnOf);
    RepresentedKeys(mapped, all, f);
    if exists m :: m in all && m.0 == f {
      var m :| m in all && m.0 == f;
      AllMatchesCharacterized(rules, matches, fqnOf, m);
    }
    if exists i, t :: 0 <= i < |rules| && t in matches(rules[i]) && fqnOf(t) == f {
      var i, t :| 0 <= i < |rules| && t in matches(rules[i]) && fqnOf(t) == f;
      AllMatchesCharacterized(rules, matches, fqnOf, (f, rules[i].shape, rules[i].name));
    }
  }

  /** A component name is listed under a type name and shape exactly when a rule of them matched such a type. */
  lemma MappedEntriesMeaning(mapped: Mapping, rules: seq<Rule>, matches: Rule -> set<int>, fqnOf: int -> string,
                             f: string, sh: string, n: string)
    requires Represents(mapped, AllMatches(rules, matches, fqnOf))
    ensures (f in mapped && sh in mapped[f] && n in mapped[f][sh]) <==>
      exists i, t :: 0 <= i < |rules| && t in matches(rules[i]) && fqnOf(t) == f &&
                     rules[i].shape == sh && rules[i].name == n
  {
    AllMatchesCharacterized(rules, matches, fqnOf, (f, sh, n));
  }

  /** Adding a type adds its match. */
  lemma MatchesOfAdd(rule: Rule, types: set<int>, t: int, before: set<Match>, fqnOf: int -> string)
    ensures before + MatchesOf(rule, types + {t}, fqnOf) ==
      (before + MatchesOf(rule, types, fqnOf)) + {(fqnOf(t), rule.shape, rule.name)}
  {
  }

  // ---------------------------------------------------------------------
  // Components of the rules
  // ---------------------------------------------------------------------

  /** One more block after a prefix: the blocks flattened after `base` grow by the new block. */
  lemma FlattenAppend<T>(base: seq<T>, blocks: seq<seq<T>>, last: seq<T>)
    ensures base + Flatten(blocks + [last]) == (base + Flatten(blocks)) + last
  {
    assert (blocks + [last])[..|blocks|] == blocks;
  }

  /** The node `id` is a component of this shape and name. */
  ghost predicate Names(nodes: map<int, Component>, id: int, shape: string, name: string)
  {
    id in nodes && nodes[id].shape == shape && nodes[id].name == name
  }

  /** Nothing in `before` is gone or changed in `after`. */
  ghost predicate Grown(before: map<int, Component>, after: map<int, Component>)
  {
    forall c :: c in before ==> c in after && after[c] == before[c]
  }

  /** Some node is a component of this shape and name. */
  ghost predicate Present(nodes: map<int, Component>, shape: string, name: string)
  {
    exists c :: c in nodes && nodes[c].shape == shape && nodes[c].name == name
  }

  /**
   * The component of a rule: one of this shape and name if the store holds
   * one, otherwise a new empty one.
   */
  method GetOrCreate(store: Store, shape: string, name: string) returns (id: int)
    requires store.Valid()
    modifies store
    ensures store.Valid()
    ensures Names(store.components, id, shape, name)
    ensures Grown(old(store.components), store.components)
    ensures Present(old(store.components), shape, name) ==>
      id in old(store.components) && store.components == old(store.components)
    ensures !Present(old(store.components), shape, name) ==>
      id !in old(store.components) && store.components == old(store.components)[id := Component(shape, name, {}, {}, [])]
  {
    var found := store.FindComponent(shape, name);
    if found.Some? {
      id := found.value;
    } else {
      id := store.Create(shape, name, {}, {});
    }
  }

  /** Some rule names a component of this shape and name. */
  predicate RuleFor(rules: seq<Rule>, shape: string, name: string)
  {
    exists i :: 0 <= i < |rules| && rules[i].shape == shape && rules[i].name == name
  }

  // ---------------------------------------------------------------------
  // Classifying the matched types of one rule
  // ---------------------------------------------------------------------

  /**
   * The inner loop over the types a rule matched: each gets a
   * classification into the rule's component, and `mappedTypes` records
   * the match.
   */
  method ClassifyTypes(criterion: RuleBasedCriterion, component: int, rule: Rule, ts: set<int>,
                       fqnOf: int -> string, mapped: Mapping, ghost before: set<Match>)
    returns (mappedAfter: Mapping, ghost added: seq<ClassificationInfo>)
    requires Represents(mapped, before)
    modifies criterion
    ensures criterion.classifications == old(criterion.classifications) + added
    ensures ClassifiesAll(added, component, rule, ts, criterion.iteration)
    ensures Represents(mappedAfter, before + MatchesOf(rule, ts, fqnOf))
  {
    mappedAfter := mapped;
    added := [];
    var rest := ts;
    while rest != {}
      invariant rest <= ts
      invariant criterion.classifications == old(criterion.classifications) + added
      invariant ClassifiesAll(added, component, rule, ts - rest, criterion.iteration)
      invariant Represents(mappedAfter, before + MatchesOf(rule, ts - rest, fqnOf))
      decreases rest
    {
      var t := Pick(rest);
      var info := ClassificationInfo(component, t, rule.weight / 100.0, rule, criterion.iteration);
      criterion.classifications := criterion.classifications + [info];
      ClassifiesOneMore(added, component, rule, ts - rest, criterion.iteration, t);
      added := added + [info];
      RecordsOneMore(mappedAfter, before, rule, ts - rest, t, fqnOf);
      mappedAfter := Merge(mappedAfter, fqnOf(t), rule.shape, rule.name);
      assert ts - (rest - {t}) == (ts - rest) + {t};
      rest := rest - {t};
    }
  }

  /** One more type classified. */
  lemma ClassifiesOneMore(added: seq<ClassificationInfo>, component: int, rule: Rule, done: set<int>,
                          iteration: int, t: int)
    requires ClassifiesAll(added, component, rule, done, iteration) && t !in done
    ensures ClassifiesAll(added + [ClassificationInfo(component, t, rule.weight / 100.0, rule, iteration)],
                          component, rule, done + {t}, iteration)
  {
  }

  /** One more match recorded. */
  lemma RecordsOneMore(mapped: Mapping, before: set<Match>, rule: Rule, done: set<int>, t: int, fqnOf: int -> string)
    requires Represents(mapped, before + MatchesOf(rule, done, fqnOf))
    ensures Represents(Merge(mapped, fqnOf(t), rule.shape, rule.name), before + MatchesOf(rule, done + {t}, fqnOf))
  {
    MergeRepresents(mapped, before + MatchesOf(rule, done, fqnOf), fqnOf(t), rule.shape, rule.name);
    MatchesOfAdd(rule, done, t, before, fqnOf);
  }

  // ---------------------------------------------------------------------
  // Types matched into several components of one shape
  // ---------------------------------------------------------------------

  /** Some shape holds more than one component name. */
  predicate MatchedSeveral(shapes: map<string, set<string>>)
  {
    exists sh :: sh in shapes && |shapes[sh]| > 1
  }

  /** The type names among `keys` that are matched into several components of one shape. */
  ghost function SeveralAmong(mapped: Mapping, keys: set<string>): set<string>
  {
    set f | f in keys && f in mapped && MatchedSeveral(mapped[f])
  }

  /** The inner loop of the count: stops at the first shape with more than one name. */
  method AnySeveral(shapes: map<string, set<string>>) returns (b: bool)
    ensures b <==> MatchedSeveral(shapes)
  {
    b := false;
    var rest := shapes.Keys;
    while rest != {}
      invariant rest <= shapes.Keys
      invariant forall sh :: sh in shapes.Keys - rest ==> |shapes[sh]| <= 1
      decreases rest
    {
      var sh := Pick(rest);
      if |shapes[sh]| > 1 {
        b := true;
        break;
      }
      rest := rest - {sh};
    }
  }

  /** The number of type names matched into several components of one shape. */
  method CountMultiplyMatched(mapped: Mapping) returns (count: nat)
    ensures count == |SeveralAmong(mapped, mapped.Keys)|
    ensures count <= |mapped.Keys|
  {
    count := 0;
    var rest := mapped.Keys;
    while rest != {}
      invariant rest <= mapped.Keys
      invariant count == |SeveralAmong(mapped, mapped.Keys - rest)|
      decreases rest
    {
      var f := Pick(rest);
      var several := AnySeveral(mapped[f]);
      ghost var done := mapped.Keys - rest;
      assert mapped.Keys - (rest - {f}) == done + {f};
      if several {
        assert SeveralAmong(mapped, done + {f}) == SeveralAmong(mapped, done) + {f};
        count := count + 1;
      } else {
        assert SeveralAmong(mapped, done + {f}) == SeveralAmong(mapped, done);
      }
      rest := rest - {f};
    }
    assert mapped.Keys - rest == mapped.Keys;
    SubsetCard(SeveralAmong(mapped, mapped.Keys), mapped.Keys);
  }

  /**
   * The quality of the classification, 1 - multipleMatched / |mappedTypes|
   * in doubles: NaN when nothing was matched, otherwise between 0 and 1.
   */
  function Quality(multipleMatched: nat, mapped: nat): (q: TypeCouplingEnricher.Quotient)
    requires multipleMatched <= mapped
    ensures q.NotANumber? <==> mapped == 0
    ensures q.Value? ==> 0.0 <= q.v <= 1.0 && q.v * mapped as real == (mapped - multipleMatched) as real
    ensures q.Value? ==> (q.v == 1.0 <==> multipleMatched == 0)
  {
    var share := TypeCouplingEnricher.Divide(TypeCouplingEnricher.Share(multipleMatched, mapped));
    if share.NotANumber? then TypeCouplingEnricher.NotANumber else TypeCouplingEnricher.Value(1.0 - share.v)
  }

  // ---------------------------------------------------------------------
  // The criterion
  // ---------------------------------------------------------------------

  ghost function Flatten<T>(blocks: seq<seq<T>>): seq<T>
  {
    if blocks == [] then [] else Flatten(blocks[..|blocks| - 1]) + blocks[|blocks| - 1]
  }

  /**
   * The state after the first |blocks| rules: the result set is ordered,
   * lists the component of each of these rules and only components of
   * rules; `mappedTypes` records their matches; each has its block of
   * classifications into its component.
   */
  ghost predicate Stage(nodes: map<int, Component>, rules: seq<Rule>, matches: Rule -> set<int>, fqnOf: int -> string,
                        iteration: int, components: seq<ComponentRef>, mappedTypes: Mapping,
                        blocks: seq<seq<ClassificationInfo>>, componentOf: seq<int>)
  {
    && |blocks| == |componentOf| <= |rules|
    && Ordered(components)
    && (forall k :: 0 <= k < |blocks| ==> Lists(components, rules[k].shape, rules[k].name))
    && (forall y :: y in components ==> Names(nodes, y.id, y.shape, y.name) && RuleFor(rules, y.shape, y.name))
    && Represents(mappedTypes, AllMatches(rules[..|blocks|], matches, fqnOf))
    && (forall k :: 0 <= k < |blocks| ==>
          ClassifiesAll(blocks[k], componentOf[k], rules[k], matches(rules[k]), iteration) &&
          Names(nodes, componentOf[k], rules[k].shape, rules[k].name))
  }

  /** New nodes do not disturb a stage. */
  lemma StageGrown(nodes: map<int, Component>, after: map<int, Component>, rules: seq<Rule>, matches: Rule -> set<int>,
                   fqnOf: int -> string, iteration: int, components: seq<ComponentRef>, mappedTypes: Mapping,
                   blocks: seq<seq<ClassificationInfo>>, componentOf: seq<int>)
    requires Stage(nodes, rules, matches, fqnOf, iteration, components, mappedTypes, blocks, componentOf)
    requires Grown(nodes, after)
    ensures Stage(after, rules, matches, fqnOf, iteration, components, mappedTypes, blocks, componentOf)
  {
  }

  /** Handling the next rule moves to the next stage. */
  lemma StageStep(nodes: map<int, Component>, rules: seq<Rule>, matches: Rule -> set<int>, fqnOf: int -> string,
                  iteration: int, components: seq<ComponentRef>, mappedTypes: Mapping,
                  blocks: seq<seq<ClassificationInfo>>, componentOf: seq<int>,
                  id: int, added: seq<ClassificationInfo>, mappedAfter: Mapping)
    requires Stage(nodes, rules, matches, fqnOf, iteration, components, mappedTypes, blocks, componentOf)
    requires |blocks| < |rules|
    requires Names(nodes, id, rules[|blocks|].shape, rules[|blocks|].name)
    requires ClassifiesAll(added, id, rules[|blocks|], matches(rules[|blocks|]), iteration)
    requires Represents(mappedAfter, AllMatches(rules[..|blocks|], matches, fqnOf) +
                                     MatchesOf(rules[|blocks|], matches(rules[|blocks|]), fqnOf))
    ensures Stage(nodes, rules, matches, fqnOf, iteration,
                  Add(components, ComponentRef(rules[|blocks|].shape, rules[|blocks|].name, id)), mappedAfter,
                  blocks + [added], componentOf + [id])
  {
    var i := |blocks|;
    var r := rules[i];
    var x := ComponentRef(r.shape, r.name, id);
    var next := Add(components, x);
    var b := blocks + [added];
    var co := componentOf + [id];
    assert |b| == |co| == i + 1 <= |rules|;
    assert Ordered(next);
    AddListsRules(components, x, rules, i);
    AddNamesRules(components, x, rules, i, nodes);
    AllMatchesStep(rules, i, matches, fqnOf);
    assert Represents(mappedAfter, AllMatches(rules[..|b|], matches, fqnOf));
    StageClassified(nodes, rules, matches, iteration, blocks, componentOf, id, added);
  }

  /** The result set after the next rule's component is added lists every rule so far. */
  lemma AddListsRules(components: seq<ComponentRef>, x: ComponentRef, rules: seq<Rule>, i: int)
    requires Ordered(components) && 0 <= i < |rules|
    requires x.shape == rules[i].shape && x.name == rules[i].name
    requires forall k :: 0 <= k < i ==> Lists(components, rules[k].shape, rules[k].name)
    ensures forall k :: 0 <= k < i + 1 ==> Lists(Add(components, x), rules[k].shape, rules[k].name)
  {
    forall k | 0 <= k < i + 1 ensures Lists(Add(components, x), rules[k].shape, rules[k].name) {
      AddListsOne(components, x, rules[k].shape, rules[k].name);
    }
  }

  /** A key is listed after an addition when it was listed before or is the added one's. */
  lemma AddListsOne(s: seq<ComponentRef>, x: ComponentRef, shape: string, name: string)
    requires Ordered(s) && (Lists(s, shape, name) || (x.shape == shape && x.name == name))
    ensures Lists(Add(s, x), shape, name)
  {
    if Lists(s, shape, name) {
      AddKeepsListed(s, x, shape, name);
    } else {
      AddMembers(s, x);
    }
  }

  /** Every entry of the result set after the addition names its node and comes from a rule. */
  lemma AddNamesRules(components: seq<ComponentRef>, x: ComponentRef, rules: seq<Rule>, i: int, nodes: map<int, Component>)
    requires Ordered(components) && 0 <= i < |rules|
    requires x.shape == rules[i].shape && x.name == rules[i].name && Names(nodes, x.id, x.shape, x.name)
    requires forall y :: y in components ==> Names(nodes, y.id, y.shape, y.name) && RuleFor(rules, y.shape, y.name)
    ensures forall y :: y in Add(components, x) ==> Names(nodes, y.id, y.shape, y.name) && RuleFor(rules, y.shape, y.name)
  {
    AddMembers(components, x);
    assert RuleFor(rules, x.shape, x.name) by {
      assert rules[i].shape == x.shape && rules[i].name == x.name;
    }
  }

  /** A key listed before an addition stays listed. */
  lemma AddKeepsListed(s: seq<ComponentRef>, x: ComponentRef, shape: string, name: string)
    requires Ordered(s) && Lists(s, shape, name)
    ensures Lists(Add(s, x), shape, name)
  {
    AddMembers(s, x);
    var j :| 0 <= j < |s| && s[j].shape == shape && s[j].name == name;
    assert s[j] in Add(s, x);
    var j' :| 0 <= j' < |Add(s, x)| && Add(s, x)[j'] == s[j];
  }

  /** The matches of one more rule. */
  lemma AllMatchesStep(rules: seq<Rule>, i: int, matches: Rule -> set<int>, fqnOf: int -> string)
    requires 0 <= i < |rules|
    ensures AllMatches(rules[..i + 1], matches, fqnOf) ==
      AllMatches(rules[..i], matches, fqnOf) + MatchesOf(rules[i], matches(rules[i]), fqnOf)
  {
    assert rules[..i + 1][..i] == rules[..i];
  }

  /** The block of one more rule. */
  lemma StageClassified(nodes: map<int, Component>, rules: seq<Rule>, matches: Rule -> set<int>, iteration: int,
                        blocks: seq<seq<ClassificationInfo>>, componentOf: seq<int>, id: int, added: seq<ClassificationInfo>)
    requires |blocks| == |componentOf| < |rules|
    requires forall k :: 0 <= k < |blocks| ==>
      ClassifiesAll(blocks[k], componentOf[k], rules[k], matches(rules[k]), iteration) &&
      Names(nodes, componentOf[k], rules[k].shape, rules[k].name)
    requires Names(nodes, id, rules[|blocks|].shape, rules[|blocks|].name)
    requires ClassifiesAll(added, id, rules[|blocks|], matches(rules[|blocks|]), iteration)
    ensures forall k :: 0 <= k < |blocks| + 1 ==>
      ClassifiesAll((blocks + [added])[k], (componentOf + [id])[k], rules[k], matches(rules[k]), iteration) &&
      Names(nodes, (componentOf + [id])[k], rules[k].shape, rules[k].name)
  {
  }

  /** The last stage states what the criterion computes. */
  lemma StageComplete(nodes: map<int, Component>, rules: seq<Rule>, matches: Rule -> set<int>, fqnOf: int -> string,
                      iteration: int, components: seq<ComponentRef>, mappedTypes: Mapping,
                      blocks: seq<seq<ClassificationInfo>>, componentOf: seq<int>)
    requires Stage(nodes, rules, matches, fqnOf, iteration, components, mappedTypes, blocks, componentOf)
    requires |blocks| == |rules|
    ensures Ordered(components)
    ensures forall i :: 0 <= i < |rules| ==> Lists(components, rules[i].shape, rules[i].name)
    ensures forall y :: y in components ==> Names(nodes, y.id, y.shape, y.name) && RuleFor(rules, y.shape, y.name)
    ensures Represents(mappedTypes, AllMatches(rules, matches, fqnOf))
    ensures |componentOf| == |rules|
    ensures forall i :: 0 <= i < |rules| ==>
      && ClassifiesAll(blocks[i], componentOf[i], rules[i], matches(rules[i]), iteration)
      && Names(nodes, componentOf[i], rules[i].shape, rules[i].name)
  {
    assert rules[..|blocks|] == rules;
  }

  /**
   * Every node that is not in `start` is the empty component of one of the
   * rules handled so far: the only nodes a criterion creates are its rules'
   * components.
   */
  ghost predicate FromRules(start: map<int, Component>, nodes: map<int, Component>, rules: seq<Rule>, componentOf: seq<int>)
  {
    forall c :: c in nodes && c !in start ==>
      exists k :: (0 <= k < |componentOf| && k < |rules| && componentOf[k] == c &&
                   nodes[c] == Component(rules[k].shape, rules[k].name, {}, {}, []))
  }

  /** The component of the next rule keeps the nodes to those of rules. */
  lemma FromRulesStep(start: map<int, Component>, nodes: map<int, Component>, after: map<int, Component>,
                      rules: seq<Rule>, componentOf: seq<int>, id: int)
    requires FromRules(start, nodes, rules, componentOf) && |componentOf| < |rules|
    requires after == nodes || (id !in nodes && after == nodes[id := Component(rules[|componentOf|].shape,
                                                                              rules[|componentOf|].name, {}, {}, [])])
    ensures FromRules(start, after, rules, componentOf + [id])
  {
    var co := componentOf + [id];
    forall c | c in after && c !in start
      ensures exists k :: (0 <= k < |co| && k < |rules| && co[k] == c &&
                           after[c] == Component(rules[k].shape, rules[k].name, {}, {}, []))
    {
      if c in nodes && after[c] == nodes[c] {
        var k :| 0 <= k < |componentOf| && k < |rules| && componentOf[k] == c &&
          nodes[c] == Component(rules[k].shape, rules[k].name, {}, {}, []);
        assert co[k] == c;
      } else {
        assert co[|componentOf|] == c;
      }
    }
  }

  /** One rule: its component, its classifications and matches, and the component added to the result set. */
  method ExecuteRule(store: Store, criterion: RuleBasedCriterion, matches: Rule -> set<int>, fqnOf: int -> string,
                     i: nat, components: seq<ComponentRef>, mappedTypes: Mapping,
                     ghost blocks: seq<seq<ClassificationInfo>>, ghost componentOf: seq<int>, ghost start: map<int, Component>)
    returns (nextComponents: seq<ComponentRef>, nextMapped: Mapping, ghost added: seq<ClassificationInfo>, ghost id: int)
    requires store.Valid() && i == |blocks| < |criterion.rules|
    requires Stage(store.components, criterion.rules, matches, fqnOf, criterion.iteration, components, mappedTypes, blocks, componentOf)
    requires FromRules(start, store.components, criterion.rules, componentOf)
    modifies store, criterion
    ensures store.Valid() && Grown(old(store.components), store.components)
    ensures FromRules(start, store.components, criterion.rules, componentOf + [id])
    ensures criterion.classifications == old(criterion.classifications) + added
    ensures Stage(store.components, criterion.rules, matches, fqnOf, criterion.iteration,
                  nextComponents, nextMapped, blocks + [added], componentOf + [id])
  {
    var rules := criterion.rules;
    var r := rules[i];
    ghost var nodes := store.components;
    var c := GetOrCreate(store, r.shape, r.name);
    id := c;
    FromRulesStep(start, nodes, store.components, rules, componentOf, id);
    StageGrown(nodes, store.components, rules, matches, fqnOf, criterion.iteration, components, mappedTypes, blocks, componentOf);
    var ts := matches(r);
    nextMapped, added := ClassifyTypes(criterion, c, r, ts, fqnOf, mappedTypes, AllMatches(rules[..i], matches, fqnOf));
    StageStep(store.components, rules, matches, fqnOf, criterion.iteration, components, mappedTypes, blocks, componentOf,
              c, added, nextMapped);
    nextComponents := Add(components, ComponentRef(r.shape, r.name, c));
  }

  /**
   * Runs the rules of a criterion: each rule's component is found or
   * created, the types the rule matches are classified into it and its
   * matches recorded, and the component joins the ordered result set;
   * finally the type names matched into several components of one shape
   * are counted.
   */
  method Execute(store: Store, criterion: RuleBasedCriterion, matches: Rule -> set<int>, fqnOf: int -> string)
    returns (components: seq<ComponentRef>, mappedTypes: Mapping, multipleMatched: nat,
             ghost blocks: seq<seq<ClassificationInfo>>, ghost componentOf: seq<int>)
    requires store.Valid()
    modifies store, criterion
    ensures store.Valid()
    ensures Grown(old(store.components), store.components)
    ensures FromRules(old(store.components), store.components, criterion.rules, componentOf)
    ensures Ordered(components)
    ensures forall i :: 0 <= i < |criterion.rules| ==> Lists(components, criterion.rules[i].shape, criterion.rules[i].name)
    ensures forall y :: y in components ==>
      Names(store.components, y.id, y.shape, y.name) && RuleFor(criterion.rules, y.shape, y.name)
    ensures Represents(mappedTypes, AllMatches(criterion.rules, matches, fqnOf))
    ensures multipleMatched == |SeveralAmong(mappedTypes, mappedTypes.Keys)| && multipleMatched <= |mappedTypes.Keys|
    ensures |blocks| == |componentOf| == |criterion.rules|
    ensures criterion.classifications == old(criterion.classifications) + Flatten(blocks)
    ensures forall i :: 0 <= i < |criterion.rules| ==>
      && ClassifiesAll(blocks[i], componentOf[i], criterion.rules[i], matches(criterion.rules[i]), criterion.iteration)
      && Names(store.components, componentOf[i], criterion.rules[i].shape, criterion.rules[i].name)
  {
    components := [];
    mappedTypes := map[];
    blocks := [];
    componentOf := [];
    ghost var base := criterion.classifications;
    ghost var start := store.components;
    for i := 0 to |criterion.rules|
      invariant store.Valid()
      invariant Grown(old(store.components), store.components)
      invariant FromRules(start, store.components, criterion.rules, componentOf)
      invariant |blocks| == i
      invariant criterion.classifications == base + Flatten(blocks)
      invariant Stage(store.components, criterion.rules, matches, fqnOf, criterion.iteration,
                      components, mappedTypes, blocks, componentOf)
    {
      ghost var added, id;
      components, mappedTypes, added, id :=
        ExecuteRule(store, criterion, matches, fqnOf, i, components, mappedTypes, blocks, componentOf, start);
      FlattenAppend(base, blocks, added);
      blocks := blocks + [added];
      componentOf := componentOf + [id];
    }
    StageComplete(store.components, criterion.rules, matches, fqnOf, criterion.iteration,
                  components, mappedTypes, blocks, componentOf);
    multipleMatched := CountMultiplyMatched(mappedTypes);
  }
}
