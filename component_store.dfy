/**
 * The part of the graph store the criterion executors work on: component
 * nodes with their shape, name, contained components and types and top
 * words, next to the type nodes. Node ids are handed out in increasing
 * order, so a component only ever contains nodes older than itself.
 */
module ComponentStore {

  import opened Aggregates

  datatype Option<T> = None | Some(value: T)

  /** A component node. */
  datatype Component = Component(
    shape: string,
    name: string,
    containedComponents: set<int>,
    containedTypes: set<int>,
    topWords: seq<string>)

  /**
   * The types a component contains directly or through the components it
   * contains, at any depth (the repository's recursive containment query).
   * Only older components are followed, which is all there are in a valid store.
   */
  function DeepTypes(components: map<int, Component>, c: int): (ts: set<int>)
    ensures c !in components ==> ts == {}
    ensures c in components ==> components[c].containedTypes <= ts
    decreases c
  {
    if c !in components then {}
    else
      components[c].containedTypes +
      (set d, t | d in components[c].containedComponents && 0 <= d < c && t in DeepTypes(components, d) :: t)
  }

  /**
   * In a store where containment points to smaller ids, every type a contained
   * component holds at any depth is held at any depth by its container.
   */
  lemma DeepTypesChildren(components: map<int, Component>, c: int, d: int, t: int)
    requires Descending(components)
    requires c in components && d in components[c].containedComponents
    requires t in DeepTypes(components, d)
    ensures t in DeepTypes(components, c)
  {
    assert 0 <= d < c;
  }

  /** Adding or changing components above `c` does not change what `c` contains. */
  lemma {:induction false} DeepTypesFrame(before: map<int, Component>, after: map<int, Component>, c: int)
    requires 0 <= c
    requires forall d :: 0 <= d <= c ==> (d in before <==> d in after)
    requires forall d :: 0 <= d <= c && d in before ==>
      after[d].containedComponents == before[d].containedComponents &&
      after[d].containedTypes == before[d].containedTypes
    ensures DeepTypes(after, c) == DeepTypes(before, c)
    decreases c
  {
    if c in before {
      forall d | d in before[c].containedComponents && 0 <= d < c
        ensures DeepTypes(after, d) == DeepTypes(before, d)
      {
        DeepTypesFrame(before, after, d);
      }
      var ds := before[c].containedComponents;
      var a := set d, t | d in ds && 0 <= d < c && t in DeepTypes(after, d) :: t;
      var b := set d, t | d in ds && 0 <= d < c && t in DeepTypes(before, d) :: t;
      forall t | t in a ensures t in b {
        var d :| d in ds && 0 <= d < c && t in DeepTypes(after, d);
        assert t in DeepTypes(before, d);
      }
      forall t | t in b ensures t in a {
        var d :| d in ds && 0 <= d < c && t in DeepTypes(before, d);
        assert t in DeepTypes(after, d);
      }
      assert a == b;
    }
  }

  /** The types a node stands for at any depth: a component's deep types, or a type node itself. */
  ghost function Deep(components: map<int, Component>, x: int): set<int>
  {
    if x in components then DeepTypes(components, x) else {x}
  }

  /** The types a set of nodes stands for at any depth. */
  ghost function DeepOf(components: map<int, Component>, xs: set<int>): set<int>
  {
    set x, t | x in xs && t in Deep(components, x) :: t
  }

  /** Type nodes stand for themselves. */
  lemma DeepOfTypes(components: map<int, Component>, xs: set<int>)
    requires forall x :: x in xs ==> x !in components
    ensures DeepOf(components, xs) == xs
  {
    forall t | t in xs ensures t in DeepOf(components, xs) {
      assert t in Deep(components, t);
    }
  }

  /** A single component stands for its deep types. */
  lemma DeepOfOne(components: map<int, Component>, c: int)
    requires c in components
    ensures DeepOf(components, {c}) == DeepTypes(components, c)
  {
    forall t | t in DeepTypes(components, c) ensures t in DeepOf(components, {c}) {
      assert t in Deep(components, c);
    }
  }

  /** Every contained component is a node of the store. */
  ghost predicate Closed(components: map<int, Component>)
  {
    forall c, d :: c in components && d in components[c].containedComponents ==> d in components
  }

  /** Every contained component has a smaller, non-negative id. */
  ghost predicate Descending(components: map<int, Component>)
  {
    forall c, d :: c in components && d in components[c].containedComponents ==> 0 <= d < c
  }

  /** Adding nodes to a closed store does not change what its nodes contain at any depth. */
  lemma {:induction false} DeepTypesGrow(before: map<int, Component>, after: map<int, Component>, c: int)
    requires Closed(before)
    requires forall d :: d in before ==> d in after && after[d] == before[d]
    requires c in before
    ensures DeepTypes(after, c) == DeepTypes(before, c)
    decreases c
  {
    forall d | d in before[c].containedComponents && 0 <= d < c
      ensures DeepTypes(after, d) == DeepTypes(before, d)
    {
      DeepTypesGrow(before, after, d);
    }
    var ds := before[c].containedComponents;
    var a := set d, t | d in ds && 0 <= d < c && t in DeepTypes(after, d) :: t;
    var b := set d, t | d in ds && 0 <= d < c && t in DeepTypes(before, d) :: t;
    forall t | t in a ensures t in b {
      var d :| d in ds && 0 <= d < c && t in DeepTypes(after, d);
      assert t in DeepTypes(before, d);
    }
    forall t | t in b ensures t in a {
      var d :| d in ds && 0 <= d < c && t in DeepTypes(before, d);
      assert t in DeepTypes(after, d);
    }
    assert a == b;
  }

  class Store {
    /** The component nodes by id. */
    var components: map<int, Component>
    /** The id the next created node receives. */
    var nextId: int
    /** The ids of the type nodes. */
    const types: set<int>

    ghost predicate Valid()
      reads this
    {
      && 0 <= nextId
      && (forall t :: t in types ==> 0 <= t < nextId && t !in components)
      && (forall c :: c in components ==> 0 <= c < nextId)
      && (forall c :: c in components ==> components[c].containedTypes <= types)
      && (forall c, d :: c in components && d in components[c].containedComponents ==>
            d in components && d < c)
    }

    /** In a valid store, containment stays inside the store and points to smaller ids. */
    lemma ValidShape()
      requires Valid()
      ensures Closed(components) && Descending(components)
    {
      var cs := components;
      forall c, d | c in cs && d in cs[c].containedComponents ensures 0 <= d < c {
        assert d in cs;
      }
    }

    /** A store holding the given type nodes and no components. */
    constructor(typeIds: set<int>, firstFree: int)
      requires 0 <= firstFree
      requires forall t :: t in typeIds ==> 0 <= t < firstFree
      ensures Valid()
      ensures types == typeIds && components == map[] && nextId == firstFree
    {
      types := typeIds;
      components := map[];
      nextId := firstFree;
    }

    /** Whether a node id belongs to the store. */
    predicate Holds(id: int)
      reads this
    {
      id in components || id in types
    }

    /** Creates a component node with a fresh id. */
    method Create(shape: string, name: string, containedComponents: set<int>, containedTypes: set<int>)
      returns (id: int)
      requires Valid()
      requires containedComponents <= components.Keys && containedTypes <= types
      modifies this
      ensures Valid()
      ensures id == old(nextId) && nextId == old(nextId) + 1
      ensures id !in old(components) && id !in types
      ensures components == old(components)[id := Component(shape, name, containedComponents, containedTypes, [])]
    {
      id := nextId;
      components := components[id := Component(shape, name, containedComponents, containedTypes, [])];
      nextId := nextId + 1;
    }

    /** Stores the top words of a component. */
    method SetTopWords(id: int, words: seq<string>)
      requires Valid() && id in components
      modifies this
      ensures Valid() && nextId == old(nextId)
      ensures components == old(components)[id := old(components[id]).(topWords := words)]
    {
      ghost var before := components;
      components := components[id := components[id].(topWords := words)];
      assert components.Keys == before.Keys;
      assert forall c :: c in components ==>
        components[c].containedTypes == before[c].containedTypes &&
        components[c].containedComponents == before[c].containedComponents;
    }

    /** The types a component contains at any depth. */
    function ContainedTypesRecursively(c: int): (ts: set<int>)
      reads this
      requires Valid()
      ensures c in components ==> components[c].containedTypes <= ts
      ensures ts <= types
    {
      DeepTypesWithin(c);
      DeepTypes(components, c)
    }

    lemma {:induction false} DeepTypesWithin(c: int)
      requires Valid()
      ensures DeepTypes(components, c) <= types
      decreases c
    {
      if c in components && 0 <= c {
        forall d | d in components[c].containedComponents && 0 <= d < c
          ensures DeepTypes(components, d) <= types
        {
          DeepTypesWithin(d);
        }
      }
    }

    /** Some component with the given shape and name, if there is one. */
    method FindComponent(shape: string, name: string) returns (r: Option<int>)
      ensures r.Some? ==>
        (r.value in components && components[r.value].shape == shape && components[r.value].name == name)
      ensures r.None? ==> forall c :: c in components ==>
        !(components[c].shape == shape && components[c].name == name)
    {
      var matching := set c | c in components && components[c].shape == shape && components[c].name == name;
      if matching == {} {
        assert forall c :: c in components && components[c].shape == shape && components[c].name == name ==>
          c in matching;
        r := None;
      } else {
        var c := Pick(matching);
        r := Some(c);
      }
    }
  }

}
