/**
 * Sums over finite sets whose value does not depend on the order in which
 * the elements are visited. The source iterates hash maps and hash sets in
 * an unspecified order; the loops that model those iterations pick any
 * remaining element and are proved against these folds.
 */
module Aggregates {

  /** Some element of a non-empty set. */
  ghost function Choose<T>(s: set<T>): (x: T)
    requires s != {}
    ensures x in s
  {
    var x :| x in s; x
  }

  /** Picks some element of a non-empty set (a hash set's next element). */
  method Pick<T>(s: set<T>) returns (x: T)
    requires s != {}
    ensures x in s
  {
    x :| x in s;
  }

  /** Moving `x` from the unvisited part `rest` of `all` to the visited part. */
  lemma VisitOne<T>(all: set<T>, rest: set<T>, x: T)
    requires rest <= all && x in rest
    ensures rest - {x} <= all
    ensures all - (rest - {x}) == (all - rest) + {x} && x !in all - rest
  {
  }

  /** The sum of `f` over the elements of `s`. */
  ghost function SumOver<K>(s: set<K>, f: K -> real): real
    decreases s
  {
    if s == {} then 0.0
    else
      var x := Choose(s);
      f(x) + SumOver(s - {x}, f)
  }

  /** Any element may be taken out first: the sum is order independent. */
  lemma {:induction false} SumOverRemove<K>(s: set<K>, f: K -> real, x: K)
    requires x in s
    ensures SumOver(s, f) == f(x) + SumOver(s - {x}, f)
    decreases s
  {
    var y := Choose(s);
    if y != x {
      SumOverRemove(s - {y}, f, x);
      SumOverRemove(s - {x}, f, y);
      assert s - {y} - {x} == s - {x} - {y};
    }
  }

  /** Adding a fresh element adds its value. */
  lemma SumOverInsert<K>(s: set<K>, f: K -> real, x: K)
    requires x !in s
    ensures SumOver(s + {x}, f) == SumOver(s, f) + f(x)
  {
    SumOverRemove(s + {x}, f, x);
    assert s + {x} - {x} == s;
  }

  /** Pointwise smaller values have a smaller sum. */
  lemma {:induction false} SumOverMonotone<K>(s: set<K>, f: K -> real, g: K -> real)
    requires forall x :: x in s ==> f(x) <= g(x)
    ensures SumOver(s, f) <= SumOver(s, g)
    decreases s
  {
    if s != {} {
      var x :| x in s;
      SumOverRemove(s, f, x);
      SumOverRemove(s, g, x);
      SumOverMonotone(s - {x}, f, g);
    }
  }

  /** The function with the single value `c`. */
  function Constant<K>(c: real): K -> real
  {
    _ => c
  }

  /** `c` added up `n` times. */
  function Times(n: nat, c: real): real
  {
    if n == 0 then 0.0 else c + Times(n - 1, c)
  }

  /** Adding `c` up `n` times is multiplying it by `n`. */
  lemma {:induction false} TimesIsProduct(n: nat, c: real)
    ensures Times(n, c) == n as real * c
  {
    if n > 0 {
      TimesIsProduct(n - 1, c);
      Distribute((n - 1) as real, n as real, c);
    }
  }

  lemma Distribute(m: real, n: real, c: real)
    requires n == m + 1.0
    ensures n * c == m * c + c
  {
  }

  /** A larger summand gives a larger n-fold sum. */
  lemma {:induction false} TimesMonotone(n: nat, c: real, d: real)
    requires c <= d
    ensures Times(n, c) <= Times(n, d)
  {
    if n > 0 {
      TimesMonotone(n - 1, c, d);
    }
  }

  /** A constant summed over s is |s| times the constant. */
  lemma {:induction false} SumOverConstant<K>(s: set<K>, c: real)
    ensures SumOver(s, Constant(c)) == Times(|s|, c)
    decreases s
  {
    if s != {} {
      var x := Choose(s);
      var rest := s - {x};
      SumOverConstant(rest, c);
      assert |s| == |rest| + 1;
    }
  }

  /** Every value is at least `lo`, so the sum is at least |s| times `lo`. */
  lemma SumOverLower<K>(s: set<K>, f: K -> real, lo: real)
    requires forall x :: x in s ==> lo <= f(x)
    ensures Times(|s|, lo) <= SumOver(s, f)
  {
    SumOverMonotone(s, Constant(lo), f);
    SumOverConstant(s, lo);
  }

  /** Every value is at most `hi`, so the sum is at most |s| times `hi`. */
  lemma SumOverUpper<K>(s: set<K>, f: K -> real, hi: real)
    requires forall x :: x in s ==> f(x) <= hi
    ensures SumOver(s, f) <= Times(|s|, hi)
  {
    SumOverMonotone(s, f, Constant(hi));
    SumOverConstant(s, hi);
  }

  /** Non-negative values have a non-negative sum. */
  lemma SumOverNonNegative<K>(s: set<K>, f: K -> real)
    requires forall x :: x in s ==> 0.0 <= f(x)
    ensures 0.0 <= SumOver(s, f)
  {
    SumOverMonotone(s, Constant(0.0), f);
    SumOverConstant(s, 0.0);
    TimesIsProduct(|s|, 0.0);
  }

  /** Two functions that agree on `s` have the same sum over it. */
  lemma {:induction false} SumOverCongruent<K>(s: set<K>, f: K -> real, g: K -> real)
    requires forall x :: x in s ==> f(x) == g(x)
    ensures SumOver(s, f) == SumOver(s, g)
    decreases s
  {
    if s != {} {
      var x :| x in s;
      SumOverRemove(s, f, x);
      SumOverRemove(s, g, x);
      SumOverCongruent(s - {x}, f, g);
    }
  }

  /** A subset is no larger than its superset. */
  lemma {:induction false} SubsetCard<T>(a: set<T>, b: set<T>)
    requires a <= b
    ensures |a| <= |b|
    decreases |b|
  {
    if a != {} {
      var x :| x in a;
      SubsetCard(a - {x}, b - {x});
    }
  }

  /** The multiset union of `f` over the elements of `s`. */
  ghost function BagOver<K, T>(s: set<K>, f: K -> multiset<T>): multiset<T>
    decreases s
  {
    if s == {} then multiset{}
    else
      var x := Choose(s);
      f(x) + BagOver(s - {x}, f)
  }

  /** Any element may be taken out first: the union is order independent. */
  lemma {:induction false} BagOverRemove<K, T>(s: set<K>, f: K -> multiset<T>, x: K)
    requires x in s
    ensures BagOver(s, f) == f(x) + BagOver(s - {x}, f)
    decreases s
  {
    var y := Choose(s);
    if y != x {
      BagOverRemove(s - {y}, f, x);
      BagOverRemove(s - {x}, f, y);
      assert s - {y} - {x} == s - {x} - {y};
    }
  }

  /** Adding a fresh element adds its multiset. */
  lemma BagOverInsert<K, T>(s: set<K>, f: K -> multiset<T>, x: K)
    requires x !in s
    ensures BagOver(s + {x}, f) == BagOver(s, f) + f(x)
  {
    BagOverRemove(s + {x}, f, x);
    assert s + {x} - {x} == s;
  }

  /** A map that is one-to-one on `s` and sends it into `t` makes `s` no larger than `t`. */
  lemma {:induction false} InjectionCard<A, B>(s: set<A>, f: map<A, B>, t: set<B>)
    requires forall x :: x in s ==> x in f && f[x] in t
    requires forall x, y :: x in s && y in s && f[x] == f[y] ==> x == y
    ensures |s| <= |t|
    decreases s
  {
    if s != {} {
      var x := Choose(s);
      InjectionCard(s - {x}, f, t - {f[x]});
    }
  }
}
