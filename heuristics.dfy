/**
 * The search heuristics: which unassigned variable to branch on next
 * (first unassigned, minimum remaining values, degree, or minimum remaining
 * values with a degree tie-break) and in which order to try its values
 * (domain order, or least constraining value first).
 */
module Heuristics {
  import opened Wrappers
  import opened Collections
  import opened Csp

  // ---------------------------------------------------------------------
  // Lists of variables, and Python's first-minimum `min(xs, key=...)`.
  // ---------------------------------------------------------------------

  /** Strictly increasing, hence duplicate-free. */
  predicate Increasing(xs: seq<nat>)
  {
    forall i, j :: 0 <= i < j < |xs| ==> xs[i] < xs[j]
  }

  lemma IncreasingAppend(xs: seq<nat>, x: nat)
    requires Increasing(xs) && forall y :: y in xs ==> y < x
    ensures Increasing(xs + [x])
  {
    forall i, j | 0 <= i < j < |xs| + 1 ensures (xs + [x])[i] < (xs + [x])[j] {
      if j == |xs| {
        assert xs[i] in xs;
      }
    }
  }

  /** `[v for v in range(n) if v not in filled]`. */
  function Unassigned(n: nat, filled: set<Var>): (r: seq<Var>)
    ensures Increasing(r)
    ensures forall v: nat :: v in r <==> v < n && v !in filled
  {
    if n == 0 then []
    else if n - 1 in filled then Unassigned(n - 1, filled)
    else
      var init := Unassigned(n - 1, filled);
      IncreasingAppend(init, n - 1);
      init + [n - 1]
  }

  /** `[v for v in xs if p(v)]`: the order of `xs` is kept. */
  function Keep(xs: seq<nat>, p: nat -> bool): (r: seq<nat>)
    ensures forall v :: v in r <==> v in xs && p(v)
    ensures Increasing(xs) ==> Increasing(r)
  {
    if xs == [] then []
    else
      var init := Keep(xs[..|xs| - 1], p);
      assert forall v :: v in xs[..|xs| - 1] ==> v in xs;
      if p(xs[|xs| - 1]) then
        if Increasing(xs) then
          assert forall v :: v in init ==> v < xs[|xs| - 1];
          IncreasingAppend(init, xs[|xs| - 1]);
          init + [xs[|xs| - 1]]
        else init + [xs[|xs| - 1]]
      else init
  }

  /**
   * The position `min(xs, key=key)` takes its result from: a minimal key,
   * and the first position holding one.
   */
  function FirstMinIndex(xs: seq<nat>, key: nat -> int): (i: nat)
    requires xs != []
    ensures i < |xs|
    ensures forall k :: 0 <= k < |xs| ==> key(xs[i]) <= key(xs[k])
    ensures forall k :: 0 <= k < i ==> key(xs[k]) > key(xs[i])
  {
    if |xs| == 1 then 0
    else
      var i := FirstMinIndex(xs[..|xs| - 1], key);
      if key(xs[|xs| - 1]) < key(xs[i]) then |xs| - 1 else i
  }

  /** In an increasing list, the first position with a property holds the least variable with it. */
  lemma FirstIsLeast(xs: seq<nat>, i: nat, v: nat)
    requires Increasing(xs) && i < |xs| && v in xs && v < xs[i]
    ensures exists k :: 0 <= k < i && xs[k] == v
  {
    var k :| 0 <= k < |xs| && xs[k] == v;
    assert k < i;
  }

  // ---------------------------------------------------------------------
  // Variable selection.
  // ---------------------------------------------------------------------

  datatype SelectionError =
    | CompleteAssignment  // every variable already has a value
    | UnknownStrategy     // the strategy name is none of the four

  /** The four variable-ordering heuristics. */
  datatype VariableStrategy = FirstUnassigned | Mrv | Degree | MrvDegree

  /** The strategy a name selects: "none", "mrv", "degree" or "mrv+degree". */
  function ParseStrategy(name: string): (r: Option<VariableStrategy>)
    ensures r == Some(FirstUnassigned) <==> name == "none"
    ensures r == Some(Mrv) <==> name == "mrv"
    ensures r == Some(Degree) <==> name == "degree"
    ensures r == Some(MrvDegree) <==> name == "mrv+degree"
  {
    if name == "none" then Some(FirstUnassigned)
    else if name == "mrv" then Some(Mrv)
    else if name == "degree" then Some(Degree)
    else if name == "mrv+degree" then Some(MrvDegree)
    else None
  }

  /** The MRV key: the number of values left to a variable. */
  function RemainingValues(domains: seq<set<int>>): nat -> int
  {
    (v: nat) => if v < |domains| then |domains[v]| else 0
  }

  /** Minus the degree of `v`: minus the number of its neighbours not assigned yet. */
  function MinusDegree(neighbors: seq<set<nat>>, filled: set<Var>, v: nat): int
  {
    if v < |neighbors| then -|neighbors[v] - filled| else 0
  }

  /** The degree key, negated so that a minimum is a maximum degree. */
  function NegatedDegree(neighbors: seq<set<nat>>, filled: set<Var>): nat -> int
  {
    (v: nat) => MinusDegree(neighbors, filled, v)
  }

  /** `r` has the minimal `key` in `xs`, and every smaller variable of `xs` has a larger key. */
  ghost predicate FirstMinOf(xs: seq<nat>, key: nat -> int, r: nat)
  {
    && r in xs
    && forall v :: v in xs ==> key(r) <= key(v) && (v < r ==> key(r) < key(v))
  }

  /** In an increasing list the first position of a minimal key holds the first minimum. */
  lemma FirstMinIndexIsFirstMin(xs: seq<nat>, key: nat -> int)
    requires xs != [] && Increasing(xs)
    ensures FirstMinOf(xs, key, xs[FirstMinIndex(xs, key)])
  {
    var i := FirstMinIndex(xs, key);
    forall v | v in xs ensures key(xs[i]) <= key(v) && (v < xs[i] ==> key(xs[i]) < key(v)) {
      if v < xs[i] {
        FirstIsLeast(xs, i, v);
      }
    }
  }

  /**
   * MRV with a degree tie-break over the variables `xs`: the first variable
   * with the fewest values left, unless several share that count; then the
   * first of those with the most unassigned neighbours.
   */
  function MrvThenDegree(xs: seq<nat>, size: nat -> int, negDeg: nat -> int): (r: nat)
    requires xs != [] && Increasing(xs)
    ensures r in xs
    ensures forall v :: v in xs ==> size(r) <= size(v)
    ensures forall v :: v in xs && size(v) == size(r) ==> negDeg(r) <= negDeg(v) && (v < r ==> negDeg(r) < negDeg(v))
  {
    var minSize := size(xs[FirstMinIndex(xs, size)]);
    var candidates := Keep(xs, (v: nat) => size(v) == minSize);
    assert xs[FirstMinIndex(xs, size)] in candidates;
    FirstMinIndexIsFirstMin(candidates, negDeg);
    if |candidates| == 1 then
      assert FirstMinIndex(candidates, negDeg) == 0;
      candidates[0]
    else
      candidates[FirstMinIndex(candidates, negDeg)]
  }

  /**
   * The variable a strategy picks among the unassigned variables `xs`
   * (increasing): the first one; the first with fewest values left; the
   * first with most unassigned neighbours; or the first with most
   * unassigned neighbours among those with fewest values left.
   */
  function ChooseVariable(xs: seq<nat>, strategy: VariableStrategy, size: nat -> int, negDeg: nat -> int): (r: nat)
    requires xs != [] && Increasing(xs)
    ensures r in xs
    ensures strategy == FirstUnassigned ==> forall v :: v in xs ==> r <= v
    ensures strategy == Mrv ==> FirstMinOf(xs, size, r)
    ensures strategy == Degree ==> FirstMinOf(xs, negDeg, r)
    ensures strategy == MrvDegree ==>
              && (forall v :: v in xs ==> size(r) <= size(v))
              && FirstMinOf(Keep(xs, (v: nat) => size(v) == size(r)), negDeg, r)
  {
    match strategy
    case FirstUnassigned =>
      assert forall v :: v in xs ==> xs[0] <= v by {
        forall v | v in xs ensures xs[0] <= v {
          if v < xs[0] {
            FirstIsLeast(xs, 0, v);
          }
        }
      }
      xs[0]
    case Mrv =>
      FirstMinIndexIsFirstMin(xs, size);
      xs[FirstMinIndex(xs, size)]
    case Degree =>
      FirstMinIndexIsFirstMin(xs, negDeg);
      xs[FirstMinIndex(xs, negDeg)]
    case MrvDegree =>
      MrvThenDegree(xs, size, negDeg)
  }

  /**
   * The variable to branch on next, chosen among the unassigned ones by the
   * strategy named `strategy`. Fails on a complete assignment before looking
   * at the strategy name.
   */
  function SelectUnassignedVariable(csp: Problem, a: map<Var, int>, strategy: string): (r: Result<Var, SelectionError>)
    reads csp
    requires csp.Valid()
    ensures r == Failure(CompleteAssignment) <==> forall v: nat :: v < csp.nVars ==> v in a
    ensures r == Failure(UnknownStrategy) <==> (exists v: nat :: v < csp.nVars && v !in a) && ParseStrategy(strategy).None?
    ensures r.Success? ==> r.value < csp.nVars && r.value !in a
    ensures r.Success? ==>
              r.value == ChooseVariable(Unassigned(csp.nVars, a.Keys), ParseStrategy(strategy).value,
                                        RemainingValues(csp.domains), NegatedDegree(csp.neighbors, a.Keys))
  {
    var unassigned := Unassigned(csp.nVars, a.Keys);
    if unassigned == [] then
      Failure(CompleteAssignment)
    else
      assert unassigned[0] in unassigned;
      match ParseStrategy(strategy)
      case None => Failure(UnknownStrategy)
      case Some(s) =>
        Success(ChooseVariable(unassigned, s, RemainingValues(csp.domains), NegatedDegree(csp.neighbors, a.Keys)))
  }

  // ---------------------------------------------------------------------
  // Value ordering.
  // ---------------------------------------------------------------------

  /**
   * The neighbour values that `var = val` would rule out: pairs `(nb, w)`
   * with `nb` a neighbour of `var` in `nbs` that is not filled, `w` in
   * the domain of `nb`, and `(val, w)` refused by the table of `(var, nb)`.
   */
  ghost function Conflicts(allowed: Tables, domains: seq<set<int>>, nbs: set<Var>, v: Var, val: int, filled: set<Var>): set<(Var, int)>
  {
    set nb, w | nb in nbs && nb !in filled && nb < |domains| && w in domains[nb] && !IsPairAllowed(allowed, v, val, nb, w) :: (nb, w)
  }

  /** The values of neighbour `nb` among `ws` that `var = val` rules out. */
  ghost function ConflictsAt(allowed: Tables, v: Var, val: int, nb: Var, ws: set<int>): set<(Var, int)>
  {
    set w | w in ws && !IsPairAllowed(allowed, v, val, nb, w) :: (nb, w)
  }

  /** Visiting value `w` of neighbour `nb` counts the pair `(nb, w)` when it is ruled out, and only then. */
  lemma ValueStep(allowed: Tables, v: Var, val: int, nb: Var, seen: set<int>, w: int)
    requires w !in seen
    ensures var c := ConflictsAt(allowed, v, val, nb, seen);
            var c' := ConflictsAt(allowed, v, val, nb, seen + {w});
            && c' == (if IsPairAllowed(allowed, v, val, nb, w) then c else c + {(nb, w)})
            && |c'| == |c| + (if IsPairAllowed(allowed, v, val, nb, w) then 0 else 1)
  {
    assert (nb, w) !in ConflictsAt(allowed, v, val, nb, seen);
  }

  /** The inner loop of the score: how many values in `ws` of neighbour `nb` are ruled out by `var = val`. */
  method CountRuledOut(allowed: Tables, v: Var, val: int, nb: Var, ws: set<int>) returns (count: nat)
    ensures count == |ConflictsAt(allowed, v, val, nb, ws)|
  {
    count := 0;
    var rest := ws;
    while rest != {}
      invariant rest <= ws
      invariant count == |ConflictsAt(allowed, v, val, nb, ws - rest)|
      decreases |rest|
    {
      var w := Pick(rest);
      ValueStep(allowed, v, val, nb, ws - rest, w);
      assert ws - (rest - {w}) == (ws - rest) + {w};
      if !IsPairAllowed(allowed, v, val, nb, w) {
        count := count + 1;
      }
      rest := rest - {w};
    }
    assert ws - rest == ws;
  }

  /** The conflicts over `done + {nb}` split into those over `done` and, when `nb` is unfilled, those of `nb`, which are new. */
  lemma ConflictsSplit(allowed: Tables, domains: seq<set<int>>, done: set<Var>, v: Var, val: int, filled: set<Var>, nb: Var)
    requires nb !in done && nb < |domains|
    ensures var c := Conflicts(allowed, domains, done, v, val, filled);
            var at := ConflictsAt(allowed, v, val, nb, domains[nb]);
            && Conflicts(allowed, domains, done + {nb}, v, val, filled) == c + (if nb in filled then {} else at)
            && c * at == {}
  {
    var c := Conflicts(allowed, domains, done, v, val, filled);
    var at := ConflictsAt(allowed, v, val, nb, domains[nb]);
    forall p | p in at ensures p !in c {
    }
  }

  /** Finishing neighbour `nb` leaves exactly the conflicts of the neighbours done so far and `nb`. */
  lemma NeighborStep(allowed: Tables, domains: seq<set<int>>, done: set<Var>, v: Var, val: int, filled: set<Var>, nb: Var)
    requires nb !in done && nb < |domains|
    ensures var c := Conflicts(allowed, domains, done, v, val, filled);
            var c' := Conflicts(allowed, domains, done + {nb}, v, val, filled);
            if nb in filled then c' == c else |c'| == |c| + |ConflictsAt(allowed, v, val, nb, domains[nb])|
  {
    ConflictsSplit(allowed, domains, done, v, val, filled, nb);
  }

  /**
   * The least-constraining-value score of `var = val`: how many values it
   * rules out across the unassigned neighbours of `var`.
   */
  method LcvScore(csp: Problem, v: Var, val: int, a: map<Var, int>) returns (score: nat)
    requires csp.Valid() && v < csp.nVars
    ensures score == |Conflicts(csp.allowed, csp.domains, csp.neighbors[v], v, val, a.Keys)|
  {
    var allowed, domains, neighbors := csp.allowed, csp.domains, csp.neighbors[v];
    score := 0;
    var nbs := neighbors;
    while nbs != {}
      invariant nbs <= neighbors
      invariant score == |Conflicts(allowed, domains, neighbors - nbs, v, val, a.Keys)|
      decreases |nbs|
    {
      var nb := Pick(nbs);
      assert nb < |domains|;
      NeighborStep(allowed, domains, neighbors - nbs, v, val, a.Keys, nb);
      if nb !in a {
        var count := CountRuledOut(allowed, v, val, nb, domains[nb]);
        score := score + count;
      }
      assert neighbors - (nbs - {nb}) == (neighbors - nbs) + {nb};
      nbs := nbs - {nb};
    }
    assert neighbors - nbs == neighbors;
  }

  /** Ordered by `key`, lowest first. */
  ghost predicate SortedBy(xs: seq<int>, key: int -> nat)
  {
    forall i, j :: 0 <= i < j < |xs| ==> key(xs[i]) <= key(xs[j])
  }

  /** A sorted list followed by an element with a key at least every key in it is sorted. */
  lemma SortedAppend(xs: seq<int>, y: int, key: int -> nat)
    ensures SortedBy(xs, key) && (forall z :: z in xs ==> key(z) <= key(y)) ==> SortedBy(xs + [y], key)
  {
    if SortedBy(xs, key) && (forall z :: z in xs ==> key(z) <= key(y)) {
      forall i, j | 0 <= i < j < |xs| + 1 ensures key((xs + [y])[i]) <= key((xs + [y])[j]) {
        if j == |xs| {
          assert xs[i] in xs;
        }
      }
    }
  }

  /**
   * Putting the last element of `ys` back after `r`, the insertion of a
   * lower-keyed `x` into the rest of `ys`, keeps the multiset and the order.
   */
  lemma PlaceLast(ys: seq<int>, x: int, r: seq<int>, key: int -> nat)
    requires ys != [] && key(x) < key(ys[|ys| - 1])
    requires multiset(r) == multiset(ys[..|ys| - 1]) + multiset{x}
    requires SortedBy(ys[..|ys| - 1], key) ==> SortedBy(r, key)
    ensures multiset(r + [ys[|ys| - 1]]) == multiset(ys) + multiset{x}
    ensures SortedBy(ys, key) ==> SortedBy(r + [ys[|ys| - 1]], key)
  {
    var last := ys[|ys| - 1];
    var init := ys[..|ys| - 1];
    assert ys == init + [last];
    assert SortedBy(ys, key) ==> SortedBy(init, key) && forall z :: z in init ==> key(z) <= key(last);
    assert forall z :: z in r ==> z == x || z in init by {
      forall z | z in r ensures z == x || z in init {
        assert z in multiset(r);
      }
    }
    SortedAppend(r, last, key);
  }

  /** Inserts `x` after every element of `ys` whose key is not above its own. */
  function InsertByKey(x: int, ys: seq<int>, key: int -> nat): (r: seq<int>)
    ensures multiset(r) == multiset(ys) + multiset{x}
    ensures SortedBy(ys, key) ==> SortedBy(r, key)
  {
    if ys == [] then [x]
    else if key(ys[|ys| - 1]) <= key(x) then
      SortedAppend(ys, x, key);
      ys + [x]
    else
      var r := InsertByKey(x, ys[..|ys| - 1], key);
      PlaceLast(ys, x, r, key);
      r + [ys[|ys| - 1]]
  }

  /** `sorted(xs, key=key)`: a stable insertion sort. */
  function SortByKey(xs: seq<int>, key: int -> nat): (r: seq<int>)
    ensures multiset(r) == multiset(xs)
    ensures SortedBy(r, key)
  {
    if xs == [] then []
    else
      var init := xs[..|xs| - 1];
      assert xs == init + [xs[|xs| - 1]];
      InsertByKey(xs[|xs| - 1], SortByKey(init, key), key)
  }

  /** The elements of `xs` whose key is `k`, in their order in `xs`. */
  function WithKey(xs: seq<int>, key: int -> nat, k: nat): seq<int>
  {
    if xs == [] then []
    else WithKey(xs[..|xs| - 1], key, k) + (if key(xs[|xs| - 1]) == k then [xs[|xs| - 1]] else [])
  }

  /** Selecting by key distributes over concatenation. */
  lemma {:induction false} WithKeyAppend(xs: seq<int>, ys: seq<int>, key: int -> nat, k: nat)
    ensures WithKey(xs + ys, key, k) == WithKey(xs, key, k) + WithKey(ys, key, k)
    decreases |ys|
  {
    if ys != [] {
      var init, last := ys[..|ys| - 1], ys[|ys| - 1];
      assert (xs + ys)[..|xs + ys| - 1] == xs + init;
      WithKeyAppend(xs, init, key, k);
    } else {
      assert xs + ys == xs;
    }
  }

  /** Selecting by key from a list with one more element at the end. */
  lemma WithKeySnoc(xs: seq<int>, y: int, key: int -> nat, k: nat)
    ensures WithKey(xs + [y], key, k) == WithKey(xs, key, k) + (if key(y) == k then [y] else [])
  {
    assert (xs + [y])[..|xs|] == xs;
  }

  /**
   * Moving an element past a lower-keyed `x` keeps each key's order: if
   * `r` selects like `init` followed by `x`, then `r + [last]` selects like
   * `init + [last]` followed by `x`.
   */
  lemma PassLast(x: int, init: seq<int>, last: int, r: seq<int>, key: int -> nat, k: nat)
    requires key(x) < key(last)
    requires WithKey(r, key, k) == WithKey(init, key, k) + (if key(x) == k then [x] else [])
    ensures WithKey(r + [last], key, k) == WithKey(init + [last], key, k) + (if key(x) == k then [x] else [])
  {
    WithKeySnoc(r, last, key, k);
    WithKeySnoc(init, last, key, k);
  }

  /** Inserting `x` puts it after every element of its own key. */
  lemma {:induction false} InsertByKeyStable(x: int, ys: seq<int>, key: int -> nat, k: nat)
    ensures WithKey(InsertByKey(x, ys, key), key, k) == WithKey(ys, key, k) + (if key(x) == k then [x] else [])
    decreases |ys|
  {
    if ys == [] {
      WithKeySnoc([], x, key, k);
      assert [] + [x] == [x];
    } else if key(ys[|ys| - 1]) <= key(x) {
      WithKeySnoc(ys, x, key, k);
    } else {
      var init, last := ys[..|ys| - 1], ys[|ys| - 1];
      InsertByKeyStable(x, init, key, k);
      PassLast(x, init, last, InsertByKey(x, init, key), key, k);
      assert init + [last] == ys;
    }
  }

  /** `SortByKey` is stable: the elements of each key keep their input order. */
  lemma {:induction false} SortByKeyStable(xs: seq<int>, key: int -> nat, k: nat)
    ensures WithKey(SortByKey(xs, key), key, k) == WithKey(xs, key, k)
    decreases |xs|
  {
    if xs != [] {
      var init, last := xs[..|xs| - 1], xs[|xs| - 1];
      SortByKeyStable(init, key, k);
      InsertByKeyStable(last, SortByKey(init, key), key, k);
    }
  }

  /**
   * The values of `var`'s domain in the order to try them: the domain's own
   * (unspecified) order, or with `useLcv` sorted so that values ruling out
   * fewer neighbour values come first. Either way each value of the domain
   * appears exactly once.
   */
  method OrderDomainValues(csp: Problem, v: Var, a: map<Var, int>, useLcv: bool) returns (values: seq<int>)
    requires csp.Valid() && v < csp.nVars
    ensures multiset(values) == multiset(csp.domains[v])
    ensures useLcv ==> forall i, j :: 0 <= i < j < |values| ==>
              |Conflicts(csp.allowed, csp.domains, csp.neighbors[v], v, values[i], a.Keys)| <=
              |Conflicts(csp.allowed, csp.domains, csp.neighbors[v], v, values[j], a.Keys)|
  {
    values := SetToSeq(csp.domains[v]);
    if !useLcv {
      return;
    }
    // Like `sorted`, compute every key once before ordering.
    var scores: map<int, nat> := map[];
    var k := 0;
    while k < |values|
      invariant 0 <= k <= |values|
      invariant forall x :: x in scores <==> x in values[..k]
      invariant forall x :: x in scores ==>
                  scores[x] == |Conflicts(csp.allowed, csp.domains, csp.neighbors[v], v, x, a.Keys)|
    {
      var s := LcvScore(csp, v, values[k], a);
      scores := scores[values[k] := s];
      assert values[..k + 1] == values[..k] + [values[k]];
      k := k + 1;
    }
    assert values[..k] == values;
    values := SortByKey(values, x => if x in scores then scores[x] else 0);
    forall i, j | 0 <= i < j < |values|
      ensures |Conflicts(csp.allowed, csp.domains, csp.neighbors[v], v, values[i], a.Keys)| <=
              |Conflicts(csp.allowed, csp.domains, csp.neighbors[v], v, values[j], a.Keys)|
    {
      assert values[i] in multiset(values) && values[j] in multiset(values);
    }
  }
}
