/**
 * Depth-first backtracking search: choose an unassigned variable, try its
 * values in order, and for each value that agrees with the variables
 * assigned so far, branch on a private clone of the model whose domain for
 * that variable is collapsed to the value, optionally pruned by AC-3.
 */
module Backtracking {
  import opened Wrappers
  import opened Collections
  import opened Csp
  import opened Ac3
  import opened Heuristics

  // ---------------------------------------------------------------------
  // Local consistency.
  // ---------------------------------------------------------------------

  /**
   * `v = val` agrees with every assigned variable, checked in both
   * directions so that a table stored only on one arc is still honoured.
   */
  predicate IsLocallyConsistent(allowed: Tables, v: Var, val: int, a: map<Var, int>)
  {
    forall nb :: nb in a ==> IsPairAllowed(allowed, v, val, nb, a[nb]) && IsPairAllowed(allowed, nb, a[nb], v, val)
  }

  /** `s` meets every table between two distinct variables that it assigns. */
  ghost predicate SatisfiesDistinct(allowed: Tables, s: map<Var, int>)
  {
    forall arc :: arc in allowed && arc.0 != arc.1 && arc.0 in s && arc.1 in s ==> (s[arc.0], s[arc.1]) in allowed[arc]
  }

  /**
   * Adding a locally consistent `v = val` to an assignment that meets every
   * table between its distinct variables yields one that still does; and
   * only a locally consistent value can be added that way.
   */
  lemma ExtendKeepsSatisfied(allowed: Tables, a: map<Var, int>, v: Var, val: int)
    requires v !in a && SatisfiesDistinct(allowed, a)
    ensures SatisfiesDistinct(allowed, a[v := val]) <==> IsLocallyConsistent(allowed, v, val, a)
  {
    var a' := a[v := val];
    if IsLocallyConsistent(allowed, v, val, a) {
      forall arc | arc in allowed && arc.0 != arc.1 && arc.0 in a' && arc.1 in a'
        ensures (a'[arc.0], a'[arc.1]) in allowed[arc]
      {
        if arc.0 == v {
          assert IsPairAllowed(allowed, v, val, arc.1, a[arc.1]);
        } else if arc.1 == v {
          assert IsPairAllowed(allowed, arc.0, a[arc.0], v, val);
        }
      }
    }
    if SatisfiesDistinct(allowed, a') {
      forall nb | nb in a ensures IsPairAllowed(allowed, v, val, nb, a[nb]) && IsPairAllowed(allowed, nb, a[nb], v, val) {
        assert nb != v;
        if (v, nb) in allowed {
          assert (a'[v], a'[nb]) in allowed[(v, nb)];
        }
        if (nb, v) in allowed {
          assert (a'[nb], a'[v]) in allowed[(nb, v)];
        }
      }
    }
  }

  /** The `Assignment` value holding the entries of `a` for the variables `0..n-1`. */
  function AsAssignment(a: map<Var, int>, n: nat): (r: Assignment)
    ensures |r.values| == n
    ensures forall k :: 0 <= k < n ==> (r.values[k].Some? <==> k in a)
    ensures forall k :: 0 <= k < n && k in a ==> r.values[k] == Some(a[k])
  {
    Assignment(seq(n, (k: int) requires 0 <= k => if k in a then Some(a[k]) else None))
  }

  /**
   * The two-direction check of the search implies the one-direction check
   * of the model object, `IsValueConsistentWith`, on the same assignment.
   */
  lemma LocallyConsistentIsValueConsistent(allowed: Tables, neighbors: set<Var>, v: Var, val: int, a: map<Var, int>, n: nat)
    requires forall nb :: nb in neighbors ==> nb < n
    requires IsLocallyConsistent(allowed, v, val, a)
    ensures var partial := AsAssignment(a, n);
            forall j :: j in neighbors && partial.values[j].Some? ==> IsPairAllowed(allowed, v, val, j, partial.values[j].value)
  {
    var partial := AsAssignment(a, n);
    forall j | j in neighbors && partial.values[j].Some? ensures IsPairAllowed(allowed, v, val, j, partial.values[j].value) {
      assert j in a;
    }
  }

  /**
   * The converse fails: with the table `{(2, 1)}` stored only on arc `(1, 0)`,
   * the value `1` for variable `0` passes the one-direction check against
   * `1 = 1`, but the search's check refuses it.
   */
  lemma OneDirectionIsWeaker()
    ensures var allowed: Tables := map[(1, 0) := {(2, 1)}];
            var a := map[1 := 1];
            && (forall j :: j in {1} && AsAssignment(a, 2).values[j].Some? ==>
                  IsPairAllowed(allowed, 0, 1, j, AsAssignment(a, 2).values[j].value))
            && !IsLocallyConsistent(allowed, 0, 1, a)
  {
    var allowed: Tables := map[(1, 0) := {(2, 1)}];
    var a := map[1 := 1];
    assert !IsPairAllowed(allowed, 1, a[1], 0, 1);
  }

  // ---------------------------------------------------------------------
  // Search configuration and outcome.
  // ---------------------------------------------------------------------

  /** The keyword arguments of the search. */
  datatype Config = Config(variableStrategy: string, useLcv: bool, inference: string)

  /** The default search: MRV with the degree tie-break, LCV ordering and AC-3. */
  const DefaultConfig := Config("mrv+degree", true, "ac3")

  /** A configuration whose strategy and inference names are both known. */
  predicate KnownConfig(config: Config)
  {
    ParseStrategy(config.variableStrategy).Some? && (config.inference == "ac3" || config.inference == "none")
  }

  /** The errors the search raises instead of answering. */
  datatype SearchError =
    | Selection(cause: SelectionError)  // the strategy name is unknown
    | UnknownInference                    // the inference name is neither "ac3" nor "none"
    | CopyFailed(reason: ConstructionError)  // cloning a model that has an empty domain

  datatype SearchOutcome = Solution(values: map<Var, int>) | NoSolution | Error(error: SearchError)

  /** The mutable assignment dictionary the search extends and shrinks as it goes. */
  class PartialAssignment {
    var values: map<Var, int>

    constructor Empty()
      ensures values == map[]
    {
      values := map[];
    }
  }

  /** `s` keeps every entry of `a`. */
  ghost predicate Extends(s: map<Var, int>, a: map<Var, int>)
  {
    forall v :: v in a ==> v in s && s[v] == a[v]
  }

  /** A complete assignment inside `domains` that meets every table. */
  ghost predicate IsSolution(domains: seq<set<int>>, allowed: Tables, s: map<Var, int>)
  {
    Within(domains, s) && Satisfies(allowed, s)
  }

  /** Some solution lies inside `domains`. */
  ghost predicate HasSolution(domains: seq<set<int>>, allowed: Tables)
  {
    exists s :: IsSolution(domains, allowed, s)
  }

  /** Pruning that keeps solutions leaves no domain empty while a solution exists. */
  lemma SolutionKeepsDomains(before: seq<set<int>>, after: seq<set<int>>, allowed: Tables)
    requires KeepsSolutions(before, after, allowed)
    ensures HasSolution(before, allowed) ==> forall k :: 0 <= k < |after| ==> after[k] != {}
  {
    if HasSolution(before, allowed) {
      var s :| IsSolution(before, allowed, s);
      assert Within(after, s);
      forall k | 0 <= k < |after| ensures after[k] != {} {
        assert s[k] in after[k];
      }
    }
  }

  /** Some solution inside `domains` keeps every entry of `a`. */
  ghost predicate SolutionBelow(domains: seq<set<int>>, allowed: Tables, a: map<Var, int>)
  {
    exists s :: IsSolution(domains, allowed, s) && Extends(s, a)
  }

  /**
   * What holds at every node of the search: the node's domains lie inside
   * the `root` domains, each assigned variable's domain is exactly its
   * value, and the assignment meets every table between distinct variables.
   */
  ghost predicate SearchState(n: nat, allowed: Tables, root: seq<set<int>>, domains: seq<set<int>>, a: map<Var, int>)
  {
    && |root| == n && |domains| == n
    && (forall k :: 0 <= k < n ==> domains[k] <= root[k])
    && (forall v :: v in a ==> v < n && domains[v] == {a[v]})
    && SatisfiesDistinct(allowed, a)
  }

  /** Popping the entry just pushed restores the assignment. */
  lemma PopRestores(a: map<Var, int>, v: Var, val: int)
    requires v !in a
    ensures a[v := val] - {v} == a
    ensures Extends(a[v := val], a)
  {
    var b := a[v := val] - {v};
    assert b.Keys == a.Keys;
    forall w | w in a ensures b[w] == a[w] {
    }
  }

  /** The goal test: an assignment of `0..n-1` with `n` entries is complete. */
  lemma GoalTest(n: nat, a: map<Var, int>)
    requires forall v :: v in a ==> v < n
    ensures |a| <= n
    ensures |a| == n <==> forall v: nat :: v < n ==> v in a
  {
    SubsetOfRange(a.Keys, n);
    if forall v: nat :: v < n ==> v in a {
      assert a.Keys == Range(n);
      RangeSize(n);
    }
  }

  /**
   * The child state after `v = val` is committed: the clone's domains, first
   * collapsed at `v` and then possibly pruned, are non-empty, so the
   * invariant holds of the extended assignment.
   */
  lemma ChildState(n: nat, allowed: Tables, root: seq<set<int>>, domains: seq<set<int>>, a: map<Var, int>,
                   v: Var, val: int, pruned: seq<set<int>>)
    requires SearchState(n, allowed, root, domains, a)
    requires v < n && v !in a && val in domains[v] && IsLocallyConsistent(allowed, v, val, a)
    requires |pruned| == n && forall k :: 0 <= k < n ==> pruned[k] <= domains[v := {val}][k] && pruned[k] != {}
    ensures SearchState(n, allowed, root, pruned, a[v := val])
  {
    ExtendKeepsSatisfied(allowed, a, v, val);
    forall w | w in a[v := val] ensures w < n && pruned[w] == {a[v := val][w]} {
      if w != v {
        assert pruned[w] <= {a[w]};
      }
    }
  }

  /**
   * A solution below a node that extends its assignment picks a value that
   * is locally consistent, and survives collapsing its variable to that
   * value.
   */
  lemma SolutionGuidesChild(domains: seq<set<int>>, allowed: Tables, a: map<Var, int>, s: map<Var, int>, v: Var)
    requires IsSolution(domains, allowed, s) && Extends(s, a) && v < |domains| && v !in a
    ensures v in s && s[v] in domains[v]
    ensures IsLocallyConsistent(allowed, v, s[v], a)
    ensures IsSolution(domains[v := {s[v]}], allowed, s) && Extends(s, a[v := s[v]])
  {
    forall nb | nb in a ensures IsPairAllowed(allowed, v, s[v], nb, a[nb]) && IsPairAllowed(allowed, nb, a[nb], v, s[v]) {
      assert a[nb] == s[nb];
      if (v, nb) in allowed {
        assert (s[v], s[nb]) in allowed[(v, nb)];
      }
      if (nb, v) in allowed {
        assert (s[nb], s[v]) in allowed[(nb, v)];
      }
    }
  }

  /**
   * A complete answer: every variable `0..n-1` and no other is assigned, each
   * to a value of its `root` domain, and every table between distinct
   * variables accepts the pair.
   */
  ghost predicate Sound(n: nat, allowed: Tables, root: seq<set<int>>, s: map<Var, int>)
  {
    && (forall v: nat :: v in s <==> v < n)
    && (forall v :: v in s && v < |root| ==> s[v] in root[v])
    && SatisfiesDistinct(allowed, s)
  }

  /** A solution below a node picks some value of each unassigned variable. */
  lemma SolutionPicksValue(domains: seq<set<int>>, allowed: Tables, a: map<Var, int>, v: Var)
    requires SolutionBelow(domains, allowed, a) && v < |domains| && v !in a
    ensures exists val :: val in domains[v] && SolutionBelow(domains[v := {val}], allowed, a)
  {
    var s :| IsSolution(domains, allowed, s) && Extends(s, a);
    SolutionGuidesChild(domains, allowed, a, s, v);
    assert IsSolution(domains[v := {s[v]}], allowed, s);
  }

  /** A value that some solution below the node takes agrees with the assignment. */
  lemma SolutionValueIsConsistent(domains: seq<set<int>>, allowed: Tables, a: map<Var, int>, v: Var, val: int)
    requires v < |domains| && v !in a && SolutionBelow(domains[v := {val}], allowed, a)
    ensures IsLocallyConsistent(allowed, v, val, a)
  {
    var s :| IsSolution(domains[v := {val}], allowed, s) && Extends(s, a);
    SolutionGuidesChild(domains[v := {val}], allowed, a, s, v);
  }

  /**
   * A solution through `v = val` survives any pruning that keeps solutions,
   * so the pruned domains are all non-empty and a solution lies below the
   * extended assignment.
   */
  lemma SolutionSurvives(collapsed: seq<set<int>>, pruned: seq<set<int>>, allowed: Tables, a: map<Var, int>, v: Var, val: int)
    requires v < |collapsed| && collapsed[v] == {val} && |pruned| == |collapsed|
    requires SolutionBelow(collapsed, allowed, a) && KeepsSolutions(collapsed, pruned, allowed)
    ensures forall k :: 0 <= k < |collapsed| ==> collapsed[k] != {} && pruned[k] != {}
    ensures SolutionBelow(pruned, allowed, a[v := val])
  {
    var s :| IsSolution(collapsed, allowed, s) && Extends(s, a);
    assert Within(pruned, s);
    forall k | 0 <= k < |collapsed| ensures collapsed[k] != {} && pruned[k] != {} {
      assert s[k] in collapsed[k] && s[k] in pruned[k];
    }
    assert s[v] == val;
    assert IsSolution(pruned, allowed, s) && Extends(s, a[v := val]);
  }

  /**
   * The recursive search from `node` with the shared assignment `a`.
   * Returns the assignment itself once it is complete; otherwise selects a
   * variable (an unknown strategy name is reported here) and tries its
   * values in the heuristic order.
   */
  method Recurse(node: Problem, a: PartialAssignment, config: Config, ghost root: seq<set<int>>) returns (r: SearchOutcome)
    requires node.Valid() && SearchState(node.nVars, node.allowed, root, node.domains, a.values)
    modifies a
    decreases node.nVars - |a.values|, 2
    ensures forall v :: v in old(a.values) ==> v in a.values && a.values[v] == old(a.values)[v]
    ensures r.NoSolution? ==> a.values == old(a.values)
    ensures r.Solution? ==> r.values == a.values && Sound(node.nVars, node.allowed, root, r.values)
    ensures SolutionBelow(node.domains, node.allowed, old(a.values)) ==> !r.NoSolution?
    ensures KnownConfig(config) && (forall k :: 0 <= k < node.nVars ==> node.domains[k] != {}) ==> !r.Error?
    ensures |old(a.values)| < node.nVars && ParseStrategy(config.variableStrategy).None? ==> r == Error(Selection(UnknownStrategy))
    ensures old(a.values) == map[] && ParseStrategy(config.variableStrategy).Some? && config.inference != "ac3" && config.inference != "none" && (forall k :: 0 <= k < node.nVars ==> node.domains[k] != {}) ==>
              r == Error(UnknownInference)
  {
    var n := node.nVars;
    GoalTest(n, a.values);
    if |a.values| == n {
      return Solution(a.values);
    }
    var sel := SelectUnassignedVariable(node, a.values, config.variableStrategy);
    if sel.Failure? {
      return Error(Selection(sel.error));
    }
    var v := sel.value;
    var values := OrderDomainValues(node, v, a.values, config.useLcv);
    ghost var domains, allowed, a0 := node.domains, node.allowed, a.values;
    forall val | val in values ensures val in domains[v] {
      assert val in multiset(values);
    }
    r := TryValues(node, a, config, root, v, values);
    if SolutionBelow(domains, allowed, a0) {
      SolutionPicksValue(domains, allowed, a0, v);
      var val :| val in domains[v] && SolutionBelow(domains[v := {val}], allowed, a0);
      assert val in multiset(values);
    }
  }

  /**
   * Tries the values `values` of `v` in order, skipping those that clash
   * with `a`, until a branch answers with a solution or an error.
   */
  method TryValues(node: Problem, a: PartialAssignment, config: Config, ghost root: seq<set<int>>, v: Var, values: seq<int>)
    returns (r: SearchOutcome)
    requires node.Valid() && SearchState(node.nVars, node.allowed, root, node.domains, a.values)
    requires v < node.nVars && v !in a.values && forall val :: val in values ==> val in node.domains[v]
    modifies a
    decreases node.nVars - |a.values|, 1
    ensures forall w :: w in old(a.values) ==> w in a.values && a.values[w] == old(a.values)[w]
    ensures r.NoSolution? ==> a.values == old(a.values)
    ensures r.Solution? ==> r.values == a.values && Sound(node.nVars, node.allowed, root, r.values)
    ensures r.NoSolution? ==> forall k :: 0 <= k < |values| ==>
              !SolutionBelow(node.domains[v := {values[k]}], node.allowed, old(a.values))
    ensures KnownConfig(config) && (forall k :: 0 <= k < node.nVars ==> node.domains[k] != {}) ==> !r.Error?
    ensures old(a.values) == map[] && values != [] && config.inference != "ac3" && config.inference != "none" && (forall k :: 0 <= k < node.nVars ==> node.domains[k] != {}) ==> r == Error(UnknownInference)
  {
    var allowed := node.allowed;
    ghost var domains := node.domains;
    var i := 0;
    while i < |values|
      invariant i <= |values|
      invariant a.values == old(a.values) && node.domains == domains && node.allowed == allowed
      invariant forall k :: 0 <= k < i ==> !SolutionBelow(domains[v := {values[k]}], allowed, old(a.values))
      invariant old(a.values) == map[] && config.inference != "ac3" && config.inference != "none" && (forall k :: 0 <= k < node.nVars ==> node.domains[k] != {}) ==> i == 0
    {
      var val := values[i];
      if IsLocallyConsistent(allowed, v, val, a.values) {
        var result := TryValue(node, a, config, root, v, val);
        if !result.NoSolution? {
          return result;
        }
      } else if SolutionBelow(domains[v := {val}], allowed, a.values) {
        SolutionValueIsConsistent(domains, allowed, a.values, v, val);
      }
      i := i + 1;
    }
    return NoSolution;
  }

  /** What preparing a branch yields: a child node to search, a dead end, or an error. */
  datatype Branch = Child(model: Problem) | DeadEnd | Failed(error: SearchError)

  /**
   * Prepares the branch `v = val`: clones `node` (failing when it has an
   * empty domain), collapses the clone's domain of `v` to `val`, runs the
   * requested inference (an unknown inference name is reported only here,
   * after the clone), and declares a dead end when AC-3 fails or a domain
   * of the clone is empty.
   */
  method MakeChild(node: Problem, config: Config, v: Var, val: int) returns (b: Branch)
    requires node.Valid() && v < node.nVars
    ensures b.Failed? && b.error.CopyFailed? <==> exists k :: 0 <= k < node.nVars && node.domains[k] == {}
    ensures b.Failed? ==> b.error.CopyFailed? || (b.error == UnknownInference && config.inference != "ac3" && config.inference != "none")
    ensures b.Child? ==> fresh(b.model) && b.model.Valid() && b.model.nVars == node.nVars
    ensures b.Child? ==> b.model.allowed == node.allowed && b.model.neighbors == node.neighbors
    ensures b.Child? ==> forall k :: 0 <= k < node.nVars ==> b.model.domains[k] != {} && b.model.domains[k] <= node.domains[v := {val}][k]
    ensures b.Child? ==> KeepsSolutions(node.domains[v := {val}], b.model.domains, node.allowed)
    ensures HasSolution(node.domains[v := {val}], node.allowed) ==> !b.DeadEnd?
    ensures (forall k :: 0 <= k < node.nVars ==> node.domains[k] != {}) && config.inference != "ac3" && config.inference != "none" ==>
              b == Failed(UnknownInference)
    ensures b.Child? && config.inference == "none" ==> b.model.domains == node.domains[v := {val}]
    ensures b.Child? && config.inference == "ac3" && Converse(node.allowed) ==> AllArcsConsistent(b.model.domains, node.allowed)
  {
    var copy := node.CopyWithDomains();
    if copy.Failure? {
      return Failed(CopyFailed(copy.error));
    }
    var child := copy.value;
    child.domains := child.domains[v := {val}];
    ghost var collapsed := child.domains;
    var viable := true;
    if config.inference == "ac3" {
      viable := Ac3.Ac3(child);
    } else if config.inference != "none" {
      return Failed(UnknownInference);
    }
    SolutionKeepsDomains(collapsed, child.domains, node.allowed);
    if viable && FirstEmptyFrom(child.domains, 0).None? {
      return Child(child);
    }
    return DeadEnd;
  }

  /**
   * One branch of the search: prepares the child node for `v = val` and, if
   * there is one, recurses with `v = val` added to the shared assignment,
   * removing it again when that branch fails.
   */
  method TryValue(node: Problem, a: PartialAssignment, config: Config, ghost root: seq<set<int>>, v: Var, val: int)
    returns (r: SearchOutcome)
    requires node.Valid() && SearchState(node.nVars, node.allowed, root, node.domains, a.values)
    requires v < node.nVars && v !in a.values && val in node.domains[v]
    requires IsLocallyConsistent(node.allowed, v, val, a.values)
    modifies a
    decreases node.nVars - |a.values|, 0
    ensures forall w :: w in old(a.values) ==> w in a.values && a.values[w] == old(a.values)[w]
    ensures r.NoSolution? ==> a.values == old(a.values)
    ensures r.Solution? ==> r.values == a.values && Sound(node.nVars, node.allowed, root, r.values)
    ensures SolutionBelow(node.domains[v := {val}], node.allowed, old(a.values)) ==> !r.NoSolution?
    ensures KnownConfig(config) && (forall k :: 0 <= k < node.nVars ==> node.domains[k] != {}) ==> !r.Error?
    ensures config.inference != "ac3" && config.inference != "none" && (forall k :: 0 <= k < node.nVars ==> node.domains[k] != {}) ==> r == Error(UnknownInference)
  {
    var n := node.nVars;
    GoalTest(n, a.values);
    ghost var allowed, a0 := node.allowed, a.values;
    ghost var collapsed := node.domains[v := {val}];
    ghost var hasSolution := SolutionBelow(collapsed, allowed, a0);
    var b := MakeChild(node, config, v, val);
    if b.Failed? {
      if hasSolution {
        SolutionSurvives(collapsed, collapsed, allowed, a0, v, val);
        assert node.domains[v] != {};
        forall k | 0 <= k < n && k != v ensures node.domains[k] != {} {
          assert collapsed[k] == node.domains[k];
        }
      }
      return Error(b.error);
    }
    if b.DeadEnd? {
      assert hasSolution ==> HasSolution(collapsed, allowed);
      return NoSolution;
    }
    var child := b.model;
    if hasSolution {
      SolutionSurvives(collapsed, child.domains, allowed, a0, v, val);
    }
    ChildState(n, allowed, root, node.domains, a0, v, val, child.domains);
    PopRestores(a0, v, val);
    a.values := a.values[v := val];
    r := Recurse(child, a, config, root);
    if !r.NoSolution? {
      return r;
    }
    a.values := a.values - {v};
    return NoSolution;
  }

  /**
   * The search from the empty assignment. Only clones are ever pruned, so
   * `csp` itself is left as it was.
   */
  method BacktrackingSearch(csp: Problem, config: Config) returns (r: SearchOutcome)
    requires csp.Valid()
    ensures r.Solution? ==> Sound(csp.nVars, csp.allowed, csp.domains, r.values)
    ensures (exists s :: IsSolution(csp.domains, csp.allowed, s)) ==> !r.NoSolution?
    ensures KnownConfig(config) && (forall k :: 0 <= k < csp.nVars ==> csp.domains[k] != {}) ==> !r.Error?
    ensures ParseStrategy(config.variableStrategy).None? ==> r == Error(Selection(UnknownStrategy))
    ensures ParseStrategy(config.variableStrategy).Some? && config.inference != "ac3" && config.inference != "none" && (forall k :: 0 <= k < csp.nVars ==> csp.domains[k] != {}) ==>
              r == Error(UnknownInference)
  {
    var a := new PartialAssignment.Empty();
    r := Recurse(csp, a, config, csp.domains);
  }
}
