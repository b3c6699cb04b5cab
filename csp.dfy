/**
 * The generic binary-constraint CSP: variables `0..n-1`, one finite integer
 * domain per variable, a directed compatibility table per arc `(i, j)`, and
 * the undirected neighbour cache derived from the arcs present.
 */
module Csp {
  import opened Wrappers
  import opened Collections

  type Var = nat
  type Pair = (int, int)
  type Arc = (nat, nat)
  /** The admissible `(value_i, value_j)` pairs of one directed arc. */
  type Table = set<Pair>
  /** The directed compatibility tables, keyed by arc. */
  type Tables = map<Arc, Table>

  /** The reasons construction refuses its arguments. */
  datatype ConstructionError = NoVariables | DomainCountMismatch | EmptyDomain(index: nat)

  /** The reason `add_binary_constraint` refuses an arc. */
  datatype ConstraintError = SelfConstraint

  // ---------------------------------------------------------------------
  // The immutable assignment value type offered to callers.
  // ---------------------------------------------------------------------

  /** `values[i]` is the value chosen for variable `i`, or `None` while unassigned. */
  datatype Assignment = Assignment(values: seq<Option<int>>) {

    predicate IsComplete()
    {
      forall k | 0 <= k < |values| :: values[k].Some?
    }

    function ValueOf(v: Var): Option<int>
      requires v < |values|
    {
      values[v]
    }

    /** A new assignment that differs from this one only at `v`. */
    function WithPair(v: Var, x: int): (r: Assignment)
      requires v < |values|
      ensures |r.values| == |values|
      ensures r.ValueOf(v) == Some(x)
      ensures forall w :: 0 <= w < |values| && w != v ==> r.ValueOf(w) == ValueOf(w)
    {
      Assignment(values[v := Some(x)])
    }
  }

  /** Filling the last gap of an assignment completes it, and only the last gap does. */
  lemma WithPairCompletes(a: Assignment, v: Var, x: int)
    requires v < |a.values|
    ensures a.WithPair(v, x).IsComplete() <==> forall w :: 0 <= w < |a.values| && w != v ==> a.ValueOf(w).Some?
  {
    var b := a.WithPair(v, x);
    if forall w :: 0 <= w < |a.values| && w != v ==> a.ValueOf(w).Some? {
      forall k | 0 <= k < |b.values| ensures b.values[k].Some? {
        assert b.ValueOf(k) == b.values[k];
      }
    }
  }

  // ---------------------------------------------------------------------
  // Construction preconditions.
  // ---------------------------------------------------------------------

  /** The first empty domain at index `k` or later, if any. */
  function FirstEmptyFrom(doms: seq<set<int>>, k: nat): (r: Option<nat>)
    decreases |doms| - k
    ensures r.None? <==> forall i :: k <= i < |doms| ==> doms[i] != {}
    ensures r.Some? ==> k <= r.value < |doms| && doms[r.value] == {}
    ensures r.Some? ==> forall i :: k <= i < r.value ==> doms[i] != {}
  {
    if k >= |doms| then None
    else if doms[k] == {} then Some(k)
    else FirstEmptyFrom(doms, k + 1)
  }

  /** What construction from `n` and `doms` fails with, checked in the constructor's order. */
  function InitError(n: int, doms: seq<set<int>>): (r: Option<ConstructionError>)
    ensures r.None? <==> n > 0 && |doms| == n && forall i :: 0 <= i < |doms| ==> doms[i] != {}
    ensures r == Some(NoVariables) <==> n <= 0
    ensures r == Some(DomainCountMismatch) <==> n > 0 && |doms| != n
    ensures r.Some? && r.value.EmptyDomain? ==>
              n > 0 && |doms| == n && r.value.index < n && doms[r.value.index] == {} &&
              forall i :: 0 <= i < r.value.index ==> doms[i] != {}
  {
    if n <= 0 then Some(NoVariables)
    else if |doms| != n then Some(DomainCountMismatch)
    else match FirstEmptyFrom(doms, 0)
      case None => None
      case Some(i) => Some(EmptyDomain(i))
  }

  // ---------------------------------------------------------------------
  // Tables as values.
  // ---------------------------------------------------------------------

  /** The pairs of `pairs` whose components lie in `di` and `dj`. */
  function Filter(pairs: set<Pair>, di: set<int>, dj: set<int>): (t: Table)
    ensures forall p :: p in t <==> p in pairs && p.0 in di && p.1 in dj
  {
    set p | p in pairs && p.0 in di && p.1 in dj
  }

  /** Visiting one more pair adds it to the filtered table exactly when both components are in the domains. */
  lemma FilterStep(seen: set<Pair>, di: set<int>, dj: set<int>, p: Pair)
    ensures Filter(seen + {p}, di, dj) == if p.0 in di && p.1 in dj then Filter(seen, di, dj) + {p} else Filter(seen, di, dj)
  {
  }

  /** Builds the table of `pairs` restricted to `di` x `dj` pair by pair, dropping pairs outside the domains. */
  method FilterPairs(pairs: set<Pair>, di: set<int>, dj: set<int>) returns (table: Table)
    ensures table == Filter(pairs, di, dj)
  {
    table := {};
    var rest := pairs;
    while rest != {}
      invariant rest <= pairs
      invariant table == Filter(pairs - rest, di, dj)
      decreases |rest|
    {
      var p := Pick(rest);
      FilterStep(pairs - rest, di, dj, p);
      assert pairs - (rest - {p}) == (pairs - rest) + {p};
      if p.0 in di && p.1 in dj {
        table := table + {p};
      }
      rest := rest - {p};
    }
    assert pairs - rest == pairs;
  }

  /** The pointwise swap `{(b, a) | (a, b) in rel}`. */
  function Swap(rel: set<Pair>): (s: set<Pair>)
    ensures forall a, b :: (a, b) in s <==> (b, a) in rel
  {
    set p | p in rel :: (p.1, p.0)
  }

  /** The maximal "not equal" relation between two domains. */
  function AllDiff(di: set<int>, dj: set<int>): (t: Table)
    ensures forall a, b :: (a, b) in t <==> a in di && b in dj && a != b
  {
    set a, b | a in di && b in dj && a != b :: (a, b)
  }

  lemma SwapInvolution(rel: set<Pair>)
    ensures Swap(Swap(rel)) == rel
  {
    forall p | p in Swap(Swap(rel)) ensures p in rel {
      assert (p.1, p.0) in Swap(rel);
    }
  }

  /** Filtering the swapped relation is swapping the filtered one. */
  lemma FilterSwap(rel: set<Pair>, di: set<int>, dj: set<int>)
    ensures Filter(Swap(rel), dj, di) == Swap(Filter(rel, di, dj))
  {
    forall p | p in Filter(Swap(rel), dj, di) ensures p in Swap(Filter(rel, di, dj)) {
      assert (p.1, p.0) in Filter(rel, di, dj);
    }
  }

  lemma SwapAllDiff(di: set<int>, dj: set<int>)
    ensures Swap(AllDiff(di, dj)) == AllDiff(dj, di)
  {
    forall p | p in AllDiff(dj, di) ensures p in Swap(AllDiff(di, dj)) {
      assert (p.1, p.0) in AllDiff(di, dj);
    }
  }

  /** True iff arc `(i, j)` has no table (vacuously allowed) or `(vi, vj)` is in its table. */
  predicate IsPairAllowed(allowed: Tables, i: Var, vi: int, j: Var, vj: int)
  {
    (i, j) !in allowed || (vi, vj) in allowed[(i, j)]
  }

  /** After installing `Filter(pairs, di, dj)` on `(i, j)`, the in-domain pairs allowed are exactly `pairs`. */
  lemma InstalledTableDecides(allowed: Tables, i: Var, j: Var, pairs: set<Pair>, di: set<int>, dj: set<int>, vi: int, vj: int)
    requires vi in di && vj in dj
    ensures IsPairAllowed(allowed[(i, j) := Filter(pairs, di, dj)], i, vi, j, vj) <==> (vi, vj) in pairs
  {
  }

  /** Some value of `dj` is compatible with `vi` under `t`. */
  predicate Supported(vi: int, dj: set<int>, t: Table)
  {
    exists vj :: vj in dj && (vi, vj) in t
  }

  /** The values of `di` that keep a support in `dj`. */
  function Revised(di: set<int>, dj: set<int>, t: Table): (r: set<int>)
    ensures r <= di
    ensures forall vi :: vi in r <==> vi in di && Supported(vi, dj, t)
  {
    set vi | vi in di && Supported(vi, dj, t)
  }

  /** Arc `a` is consistent: every value at its source has a support at its target. */
  ghost predicate ArcConsistent(domains: seq<set<int>>, allowed: Tables, a: Arc)
    requires a in allowed && a.0 < |domains| && a.1 < |domains|
  {
    forall vi :: vi in domains[a.0] ==> Supported(vi, domains[a.1], allowed[a])
  }

  /** Every arc that has a table is consistent. */
  ghost predicate AllArcsConsistent(domains: seq<set<int>>, allowed: Tables)
  {
    forall a :: a in allowed && a.0 < |domains| && a.1 < |domains| ==> ArcConsistent(domains, allowed, a)
  }

  /** Every table comes with the swapped table on the reverse arc, as all installers but `add_binary_constraint` ensure. */
  ghost predicate Converse(allowed: Tables)
  {
    forall a :: a in allowed ==> (a.1, a.0) in allowed && allowed[(a.1, a.0)] == Swap(allowed[a])
  }

  /** Arcs stay inside `0..n-1` and `neighbors` is exactly the undirected closure of the arcs. */
  ghost predicate WellFormed(n: nat, allowed: Tables, neighbors: seq<set<nat>>)
  {
    && |neighbors| == n
    && (forall a :: a in allowed ==> a.0 < n && a.1 < n)
    && (forall i: nat, j: nat :: i < n ==> (j in neighbors[i] <==> j < n && ((i, j) in allowed || (j, i) in allowed)))
  }

  /** Installing arc `(i, j)`, and possibly `(j, i)`, and linking `i` and `j` keeps the neighbour cache exact. */
  lemma WellFormedAfterInstall(n: nat, allowed: Tables, neighbors: seq<set<nat>>, i: Var, j: Var, allowed': Tables)
    requires WellFormed(n, allowed, neighbors) && i < n && j < n
    requires (i, j) in allowed' && allowed.Keys <= allowed'.Keys <= allowed.Keys + {(i, j), (j, i)}
    ensures var nb := neighbors[i := neighbors[i] + {j}]; WellFormed(n, allowed', nb[j := nb[j] + {i}])
  {
    var nb := neighbors[i := neighbors[i] + {j}];
    var nb' := nb[j := nb[j] + {i}];
    forall x: nat, y: nat | x < n
      ensures y in nb'[x] <==> y < n && ((x, y) in allowed' || (y, x) in allowed')
    {
      if (x, y) in allowed' && (x, y) !in allowed {
        assert (x, y) == (i, j) || (x, y) == (j, i);
      }
      if (y, x) in allowed' && (y, x) !in allowed {
        assert (y, x) == (i, j) || (y, x) == (j, i);
      }
    }
    assert WellFormed(n, allowed', nb');
  }

  /** Revise's progress on a distinct arc: the visited values are pruned exactly to those with support. */
  ghost predicate DistinctProgress(d0: set<int>, dj: set<int>, t: Table, rest: set<int>, di: set<int>)
  {
    di == rest + Revised(d0 - rest, dj, t)
  }

  lemma DistinctStep(d0: set<int>, dj: set<int>, t: Table, rest: set<int>, di: set<int>, vi: int)
    requires rest <= di <= d0 && vi in rest && DistinctProgress(d0, dj, t, rest, di)
    ensures DistinctProgress(d0, dj, t, rest - {vi}, if Supported(vi, dj, t) then di else di - {vi})
  {
    assert d0 - (rest - {vi}) == (d0 - rest) + {vi};
  }

  /**
   * Revise's progress on a self arc `(x, x)`: every kept visited value had a
   * support when it was visited, a value compatible with itself is never
   * dropped, and with a symmetric table the kept visited values still have a
   * support among the values left.
   */
  ghost predicate SelfProgress(d0: set<int>, t: Table, rest: set<int>, di: set<int>)
  {
    && di - rest <= Revised(d0 - rest, d0, t)
    && (forall v :: v in d0 && (v, v) in t ==> v in di)
    && (Swap(t) == t ==> forall v :: v in di - rest ==> Supported(v, di, t))
  }

  lemma SelfStep(d0: set<int>, t: Table, rest: set<int>, di: set<int>, vi: int)
    requires rest <= di <= d0 && vi in rest && SelfProgress(d0, t, rest, di)
    ensures SelfProgress(d0, t, rest - {vi}, if Supported(vi, di, t) then di else di - {vi})
  {
    if !Supported(vi, di, t) && Swap(t) == t {
      var di' := di - {vi};
      forall v | v in di' - (rest - {vi}) ensures Supported(v, di', t) {
        assert v in di - rest;
        assert Supported(v, di, t);
        var w :| w in di && (v, w) in t;
        if w == vi {
          assert false;
        }
      }
    }
  }

  /** Everything Revise's loop keeps: `rest` is the part of the snapshot `d0` not yet visited. */
  ghost predicate PruneProgress(d0: set<int>, dj: set<int>, t: Table, self: bool, rest: set<int>, di: set<int>)
  {
    var sup := if self then d0 else dj;
    && rest <= di <= d0
    && (!self ==> DistinctProgress(d0, dj, t, rest, di))
    && (self ==> SelfProgress(d0, t, rest, di))
    && (di == d0 ==> forall v :: v in d0 - rest ==> Supported(v, sup, t))
    && ((forall v :: v in d0 ==> Supported(v, sup, t)) ==> di == d0)
  }

  lemma PruneStep(d0: set<int>, dj: set<int>, t: Table, self: bool, rest: set<int>, di: set<int>, vi: int)
    requires vi in rest && PruneProgress(d0, dj, t, self, rest, di)
    ensures var di' := if Supported(vi, if self then di else dj, t) then di else di - {vi};
            PruneProgress(d0, dj, t, self, rest - {vi}, di')
  {
    if self {
      SelfStep(d0, t, rest, di, vi);
    } else {
      DistinctStep(d0, dj, t, rest, di, vi);
    }
  }

  lemma PruneDone(d0: set<int>, dj: set<int>, t: Table, self: bool, di: set<int>)
    requires PruneProgress(d0, dj, t, self, {}, di)
    ensures di <= d0
    ensures !self ==> di == Revised(d0, dj, t)
    ensures self ==> di <= Revised(d0, d0, t)
    ensures self ==> forall v :: v in d0 && (v, v) in t ==> v in di
    ensures self && Swap(t) == t ==> forall v :: v in di ==> Supported(v, di, t)
    ensures di == d0 ==> forall v :: v in d0 ==> Supported(v, if self then d0 else dj, t)
    ensures (forall v :: v in d0 ==> Supported(v, if self then d0 else dj, t)) ==> di == d0
  {
    assert d0 - {} == d0;
  }

  /**
   * Revise's loop over a snapshot of `d0`: drops each value with no support.
   * On a distinct arc the supports are looked up in `dj`; on a self arc
   * (`self`) in the domain being pruned.
   */
  method Prune(d0: set<int>, dj: set<int>, t: Table, self: bool) returns (di: set<int>)
    ensures di <= d0
    ensures !self ==> di == Revised(d0, dj, t)
    ensures self ==> di <= Revised(d0, d0, t)
    ensures self ==> forall v :: v in d0 && (v, v) in t ==> v in di
    ensures self && Swap(t) == t ==> forall v :: v in di ==> Supported(v, di, t)
    ensures di == d0 ==> forall v :: v in d0 ==> Supported(v, if self then d0 else dj, t)
    ensures (forall v :: v in d0 ==> Supported(v, if self then d0 else dj, t)) ==> di == d0
  {
    di := d0;
    var rest := d0;
    while rest != {}
      invariant PruneProgress(d0, dj, t, self, rest, di)
      decreases |rest|
    {
      var vi := Pick(rest);
      PruneStep(d0, dj, t, self, rest, di, vi);
      if !Supported(vi, if self then di else dj, t) {
        di := di - {vi};
      }
      rest := rest - {vi};
    }
    PruneDone(d0, dj, t, self, di);
  }

  // ---------------------------------------------------------------------
  // Solutions, used to state that pruning loses none of them.
  // ---------------------------------------------------------------------

  /** `s` gives every variable a value from its domain. */
  ghost predicate Within(domains: seq<set<int>>, s: map<Var, int>)
  {
    forall k: nat :: k < |domains| ==> k in s && s[k] in domains[k]
  }

  /** `s` meets every table whose two endpoints it assigns. */
  ghost predicate Satisfies(allowed: Tables, s: map<Var, int>)
  {
    forall a :: a in allowed && a.0 in s && a.1 in s ==> (s[a.0], s[a.1]) in allowed[a]
  }

  /**
   * What `revise(xi, xj)` does to the domains: only the domain of `xi`
   * changes, and only by losing values; with no table nothing changes; on a
   * distinct arc exactly the unsupported values go; on a self arc with a
   * symmetric table every kept value keeps a support among the kept values;
   * an arc that is already consistent is left alone; and no value that
   * takes part in an allowed pair is ever dropped.
   */
  ghost predicate Revision(before: seq<set<int>>, after: seq<set<int>>, allowed: Tables, xi: Var, xj: Var)
  {
    && |after| == |before| && xi < |before| && xj < |before|
    && (forall k :: 0 <= k < |before| && k != xi ==> after[k] == before[k])
    && after[xi] <= before[xi]
    && ((xi, xj) !in allowed ==> after == before)
    && ((xi, xj) in allowed && xi != xj ==> after[xi] == Revised(before[xi], before[xj], allowed[(xi, xj)]))
    && ((xi, xj) in allowed && xi == xj && Swap(allowed[(xi, xj)]) == allowed[(xi, xj)] ==>
          forall vi :: vi in after[xi] ==> Supported(vi, after[xi], allowed[(xi, xj)]))
    && ((xi, xj) in allowed && ArcConsistent(before, allowed, (xi, xj)) ==> after == before)
    && ((xi, xj) in allowed ==>
          forall vi, vj :: (vi in before[xi] && vj in before[xj] && (vi, vj) in allowed[(xi, xj)] &&
                            (xi == xj ==> vi == vj)) ==> vi in after[xi])
  }

  // ---------------------------------------------------------------------
  // The model object.
  // ---------------------------------------------------------------------

  class Problem {
    var nVars: nat
    var domains: seq<set<int>>
    var allowed: Tables
    var neighbors: seq<set<nat>>

    /** The representation invariant. */
    ghost predicate Valid()
      reads this
    {
      nVars > 0 && |domains| == nVars && WellFormed(nVars, allowed, neighbors)
    }

    /** A fresh model with no arcs; `Create` checks the arguments first. */
    constructor Init(n: nat, doms: seq<set<int>>)
      requires InitError(n, doms).None?
      ensures Valid() && nVars == n && domains == doms && allowed == map[]
      ensures forall i :: 0 <= i < n ==> neighbors[i] == {}
    {
      nVars := n;
      domains := doms;
      allowed := map[];
      neighbors := seq(n, _ => {});
    }

    /**
     * Construction: fails when there is no variable, when the number of
     * domains is not the number of variables, or at the first empty domain.
     */
    static method Create(n: int, doms: seq<set<int>>) returns (r: Result<Problem, ConstructionError>)
      ensures r.Failure? <==> InitError(n, doms).Some?
      ensures r.Failure? ==> r.error == InitError(n, doms).value
      ensures r.Success? ==> fresh(r.value) && r.value.Valid()
      ensures r.Success? ==> r.value.nVars == n && r.value.domains == doms && r.value.allowed == map[]
      ensures r.Success? ==> forall i :: 0 <= i < n ==> r.value.neighbors[i] == {}
    {
      var e := InitError(n, doms);
      if e.Some? {
        return Failure(e.value);
      }
      var p := new Problem.Init(n, doms);
      return Success(p);
    }

    /**
     * Installs (or replaces) the table of arc `(i, j)`, keeping only pairs
     * inside the current domains; the reverse arc is left alone.
     */
    method AddBinaryConstraint(i: Var, j: Var, allowedPairs: set<Pair>) returns (r: Outcome<ConstraintError>)
      requires Valid() && i < nVars && j < nVars
      modifies this
      ensures Valid() && nVars == old(nVars) && domains == old(domains)
      ensures r == (if i == j then Fail(SelfConstraint) else Pass)
      ensures i == j ==> allowed == old(allowed) && neighbors == old(neighbors)
      ensures i != j ==> allowed == old(allowed)[(i, j) := Filter(allowedPairs, old(domains[i]), old(domains[j]))]
      ensures i != j ==> neighbors == old(neighbors)[i := old(neighbors[i]) + {j}][j := old(neighbors[j]) + {i}]
    {
      if i == j {
        return Fail(SelfConstraint);
      }
      var table := FilterPairs(allowedPairs, domains[i], domains[j]);
      WellFormedAfterInstall(nVars, allowed, neighbors, i, j, allowed[(i, j) := table]);
      allowed := allowed[(i, j) := table];
      neighbors := neighbors[i := neighbors[i] + {j}];
      neighbors := neighbors[j := neighbors[j] + {i}];
      return Pass;
    }

    /** Installs `relation` on `(i, j)` and its pointwise swap on `(j, i)`, each filtered to the current domains. */
    method AddSymmetricBinaryConstraint(i: Var, j: Var, relation: set<Pair>) returns (r: Outcome<ConstraintError>)
      requires Valid() && i < nVars && j < nVars
      modifies this
      ensures Valid() && nVars == old(nVars) && domains == old(domains)
      ensures r == (if i == j then Fail(SelfConstraint) else Pass)
      ensures i == j ==> allowed == old(allowed) && neighbors == old(neighbors)
      ensures i != j ==> allowed == old(allowed)[(i, j) := Filter(relation, old(domains[i]), old(domains[j]))]
                                                [(j, i) := Filter(Swap(relation), old(domains[j]), old(domains[i]))]
      ensures i != j ==> allowed[(j, i)] == Swap(allowed[(i, j)])
      ensures i != j ==> neighbors == old(neighbors)[i := old(neighbors[i]) + {j}][j := old(neighbors[j]) + {i}]
    {
      var rel := relation;
      r := AddBinaryConstraint(i, j, rel);
      if r.Fail? {
        return;
      }
      var swapped := Swap(rel);
      var _ := AddBinaryConstraint(j, i, swapped);
      FilterSwap(relation, old(domains[i]), old(domains[j]));
    }

    /**
     * Installs "not equal" between `i` and `j` in both directions, restricted
     * to the current domains. Unlike `AddBinaryConstraint` it does not refuse
     * `i == j`.
     */
    method AddAllDiffEdge(i: Var, j: Var)
      requires Valid() && i < nVars && j < nVars
      modifies this
      ensures Valid() && nVars == old(nVars) && domains == old(domains)
      ensures allowed == old(allowed)[(i, j) := AllDiff(old(domains[i]), old(domains[j]))]
                                     [(j, i) := Swap(AllDiff(old(domains[i]), old(domains[j])))]
      ensures allowed[(i, j)] == AllDiff(domains[i], domains[j])
      ensures allowed[(j, i)] == AllDiff(domains[j], domains[i])
      ensures neighbors == old(neighbors)[i := old(neighbors[i]) + {j}][j := old(neighbors[j]) + {i}]
    {
      var di, dj := domains[i], domains[j];
      var relIJ := AllDiff(di, dj);
      var relJI := Swap(relIJ);
      SwapAllDiff(di, dj);
      WellFormedAfterInstall(nVars, allowed, neighbors, i, j, allowed[(i, j) := relIJ][(j, i) := relJI]);
      allowed := allowed[(i, j) := relIJ];
      allowed := allowed[(j, i) := relJI];
      neighbors := neighbors[i := neighbors[i] + {j}];
      neighbors := neighbors[j := neighbors[j] + {i}];
    }

    /**
     * A copy whose domains, tables and neighbour sets belong to it alone.
     * The copy is built through the constructor again, so it fails on an
     * empty domain.
     */
    method CopyWithDomains() returns (r: Result<Problem, ConstructionError>)
      requires Valid()
      ensures r.Failure? <==> exists k :: 0 <= k < nVars && domains[k] == {}
      ensures r.Failure? ==> r.error.EmptyDomain? && r.error.index < nVars && domains[r.error.index] == {}
      ensures r.Success? ==> fresh(r.value) && r.value.Valid() && r.value.nVars == nVars
      ensures r.Success? ==> r.value.domains == domains && r.value.allowed == allowed && r.value.neighbors == neighbors
    {
      var c := Create(nVars, domains);
      if c.Failure? {
        return Failure(c.error);
      }
      var clone := c.value;
      clone.allowed := allowed;
      clone.neighbors := neighbors;
      return Success(clone);
    }

    /** Checks `var = val` against the neighbours assigned in `partial`, in the direction `(var, j)` only. */
    method IsValueConsistentWith(v: Var, val: int, partial: Assignment) returns (ok: bool)
      requires Valid() && v < nVars && |partial.values| == nVars
      ensures ok <==> forall j :: j in neighbors[v] && partial.values[j].Some? ==>
                                    IsPairAllowed(allowed, v, val, j, partial.values[j].value)
    {
      var todo := neighbors[v];
      while todo != {}
        invariant todo <= neighbors[v]
        invariant forall j :: j in neighbors[v] - todo && partial.values[j].Some? ==>
                                IsPairAllowed(allowed, v, val, j, partial.values[j].value)
        decreases |todo|
      {
        var j :| j in todo;
        var vj := partial.ValueOf(j);
        if vj.Some? && !IsPairAllowed(allowed, v, val, j, vj.value) {
          return false;
        }
        todo := todo - {j};
      }
      return true;
    }

    /** Removes `val` from the domain of `v`; reports whether it was there. */
    method RemoveFromDomain(v: Var, val: int) returns (removed: bool)
      requires Valid() && v < nVars
      modifies this
      ensures Valid() && nVars == old(nVars) && allowed == old(allowed) && neighbors == old(neighbors)
      ensures removed == (val in old(domains[v]))
      ensures domains == old(domains)[v := old(domains[v]) - {val}]
    {
      if val in domains[v] {
        domains := domains[v := domains[v] - {val}];
        return true;
      }
      assert domains[v] - {val} == domains[v];
      assert domains[v := domains[v] - {val}] == domains;
      return false;
    }

    /**
     * The AC-3 pruning step: drops from the domain of `xi` every value with no
     * support in the domain of `xj` under the table of `(xi, xj)`. The values
     * are visited over a snapshot; the support test reads the current domain
     * of `xj`, which is the domain being pruned when `xi == xj`.
     */
    method Revise(xi: Var, xj: Var) returns (removed: bool)
      requires Valid() && xi < nVars && xj < nVars
      modifies this
      ensures Valid() && nVars == old(nVars) && allowed == old(allowed) && neighbors == old(neighbors)
      ensures removed <==> domains[xi] != old(domains[xi])
      ensures Revision(old(domains), domains, allowed, xi, xj)
      ensures (xi, xj) in allowed && !removed ==> forall vi :: vi in domains[xi] ==> Supported(vi, domains[xj], allowed[(xi, xj)])
    {
      if (xi, xj) !in allowed {
        return false;
      }
      var t := allowed[(xi, xj)];
      var di := Prune(domains[xi], domains[xj], t, xi == xj);
      removed := di != domains[xi];
      domains := domains[xi := di];
    }
  }
}
