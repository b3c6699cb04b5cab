/** Small facts about finite sets and sequences shared by the other modules. */
module Collections {

  /** The variable indices `0..n-1`, as a set. */
  function Range(n: nat): (r: set<nat>)
    ensures forall k: nat :: k in r <==> k < n
  {
    if n == 0 then {} else Range(n - 1) + {n - 1}
  }

  lemma {:induction false} RangeSize(n: nat)
    ensures |Range(n)| == n
  {
    if n == 0 {
      assert Range(n) == {};
    } else {
      RangeSize(n - 1);
      var smaller := Range(n - 1);
      assert n - 1 !in smaller;
      assert Range(n) == smaller + {n - 1};
    }
  }

  /** A subset is no larger than its superset, and a proper subset is smaller. */
  lemma {:induction false} SubsetSize<T>(a: set<T>, b: set<T>)
    requires a <= b
    ensures |a| <= |b|
    ensures a != b ==> |a| < |b|
    decreases b
  {
    if a != b {
      var x :| x in b && x !in a;
      SubsetSize(a, b - {x});
    }
  }

  /** A subset of `0..n-1` has at most `n` elements, and exactly `n` only when it is all of them. */
  lemma SubsetOfRange(s: set<nat>, n: nat)
    requires forall k :: k in s ==> k < n
    ensures |s| <= n
    ensures |s| == n ==> s == Range(n)
  {
    RangeSize(n);
    SubsetSize(s, Range(n));
  }

  /** No element occurs twice. */
  predicate Distinct<T(==)>(xs: seq<T>)
  {
    forall a, b :: 0 <= a < b < |xs| ==> xs[a] != xs[b]
  }

  /** `xs` lists the elements of `s`, each once, in some order. */
  ghost predicate Enumerates<T(!new)>(xs: seq<T>, s: set<T>)
  {
    Distinct(xs) && (forall x :: x in xs <==> x in s)
  }

  lemma {:induction false} EnumeratesSize<T(!new)>(xs: seq<T>, s: set<T>)
    requires Enumerates(xs, s)
    ensures |xs| == |s|
  {
    if xs != [] {
      var last := xs[|xs| - 1];
      var init := xs[..|xs| - 1];
      assert Enumerates(init, s - {last}) by {
        forall x ensures x in init <==> x in s - {last} {
          if x in init {
            var a :| 0 <= a < |init| && init[a] == x;
            assert xs[a] != xs[|xs| - 1];
          }
          if x in s - {last} {
            assert x in xs;
            var a :| 0 <= a < |xs| && xs[a] == x;
            assert a != |xs| - 1;
            assert init[a] == x;
          }
        }
      }
      EnumeratesSize(init, s - {last});
    }
  }

  /** Some element of a non-empty set, as Python's iteration would visit first. */
  method Pick<T>(s: set<T>) returns (x: T)
    requires s != {}
    ensures x in s
  {
    x :| x in s;
  }

  /**
   * Lists a finite set in an unspecified order, as iterating a Python set
   * (`list(s)`, `tuple(s)`, `deque(s)`) does.
   */
  method SetToSeq<T(==,!new)>(s: set<T>) returns (xs: seq<T>)
    ensures Enumerates(xs, s)
    ensures |xs| == |s|
    ensures multiset(xs) == multiset(s)
  {
    xs := [];
    var rest := s;
    while rest != {}
      invariant rest <= s
      invariant Distinct(xs)
      invariant forall x :: x in xs <==> x in s - rest
      invariant multiset(xs) == multiset(s - rest)
      decreases |rest|
    {
      var x :| x in rest;
      assert x !in xs;
      assert s - (rest - {x}) == (s - rest) + {x};
      xs := xs + [x];
      rest := rest - {x};
    }
    assert s - rest == s;
    EnumeratesSize(xs, s);
  }

  /** Sum of the sizes of all domains: the first component of AC-3's termination measure. */
  function TotalSize(ds: seq<set<int>>): nat
  {
    if ds == [] then 0 else TotalSize(ds[..|ds| - 1]) + |ds[|ds| - 1]|
  }

  /** Shrinking one domain strictly lowers the total size; shrinking it weakly does not raise it. */
  lemma {:induction false} TotalSizeShrinks(ds: seq<set<int>>, k: nat, d: set<int>)
    requires k < |ds| && d <= ds[k]
    ensures TotalSize(ds[k := d]) <= TotalSize(ds)
    ensures d != ds[k] ==> TotalSize(ds[k := d]) < TotalSize(ds)
  {
    var last := |ds| - 1;
    SubsetSize(d, ds[k]);
    if k == last {
      assert ds[k := d][..last] == ds[..last];
    } else {
      TotalSizeShrinks(ds[..last], k, d);
      assert ds[k := d][..last] == ds[..last][k := d];
    }
  }
}
