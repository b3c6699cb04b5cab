/**
 * AC-3 arc consistency: a first-in-first-out work queue of directed arcs,
 * each revised in turn; pruning the domain of `xi` re-queues the arcs that
 * point at `xi`, except the one from the arc's own target.
 */
module Ac3 {
  import opened Collections
  import opened Csp

  /** Every arc with a table that is not waiting in the queue is consistent. */
  ghost predicate ConsistentOutside(domains: seq<set<int>>, allowed: Tables, q: seq<Arc>)
  {
    forall a :: a in allowed && a !in q && a.0 < |domains| && a.1 < |domains| ==> ArcConsistent(domains, allowed, a)
  }

  /** Every solution inside `before` is still inside `after`. */
  ghost predicate KeepsSolutions(before: seq<set<int>>, after: seq<set<int>>, allowed: Tables)
  {
    forall s :: Within(before, s) && Satisfies(allowed, s) ==> Within(after, s)
  }

  /**
   * One revision of `(xi, xj)` followed by re-queueing keeps every arc outside
   * the queue consistent, provided the tables come in converse pairs: the arc
   * `(xj, xi)`, which is not re-queued, keeps its supports because a value of
   * `xi` that supported it is itself supported by `xj`.
   */
  lemma {:induction false} RevisionKeepsConsistency(
    n: nat, allowed: Tables, neighbors: seq<set<nat>>,
    before: seq<set<int>>, after: seq<set<int>>, xi: Var, xj: Var, q: seq<Arc>, q': seq<Arc>)
    requires WellFormed(n, allowed, neighbors) && |before| == n && |after| == n && xi < n && xj < n
    requires Converse(allowed)
    requires ConsistentOutside(before, allowed, [(xi, xj)] + q)
    requires forall k :: 0 <= k < n && k != xi ==> after[k] == before[k]
    requires after[xi] <= before[xi]
    requires (xi, xj) in allowed && xi != xj ==> after[xi] == Revised(before[xi], before[xj], allowed[(xi, xj)])
    requires (xi, xj) in allowed ==> ArcConsistent(after, allowed, (xi, xj))
    requires after[xi] != before[xi] ==> forall xk :: xk in neighbors[xi] && xk != xj ==> (xk, xi) in q'
    requires forall a :: a in q ==> a in q'
    ensures ConsistentOutside(after, allowed, q')
  {
    forall a | a in allowed && a !in q' && a.0 < n && a.1 < n
      ensures ArcConsistent(after, allowed, a)
    {
      if a != (xi, xj) {
        assert a !in [(xi, xj)] + q;
        assert ArcConsistent(before, allowed, a);
        if a.1 == xi && after[xi] != before[xi] {
          assert a.0 in neighbors[xi];
          assert a.0 == xj && xi != xj;
          var t := allowed[(xi, xj)];
          forall vj | vj in after[xj] ensures Supported(vj, after[xi], allowed[a]) {
            var vi :| vi in before[xi] && (vj, vi) in allowed[a];
            assert (vi, vj) in t;
            assert vi in after[xi];
          }
        } else if a.1 == xi {
          assert after == before by {
            forall k | 0 <= k < n ensures after[k] == before[k] { }
          }
        } else {
          forall vi | vi in after[a.0] ensures Supported(vi, after[a.1], allowed[a]) {
            assert vi in before[a.0];
          }
        }
      }
    }
  }

  /** A revision that keeps every value satisfying the arc keeps every solution. */
  lemma RevisionKeepsSolutions(
    orig: seq<set<int>>, before: seq<set<int>>, after: seq<set<int>>, allowed: Tables, xi: Var, xj: Var)
    requires |before| == |after| && xi < |before| && xj < |before|
    requires KeepsSolutions(orig, before, allowed)
    requires forall k :: 0 <= k < |before| && k != xi ==> after[k] == before[k]
    requires (xi, xj) in allowed ==>
               forall vi, vj :: (vi in before[xi] && vj in before[xj] && (vi, vj) in allowed[(xi, xj)] &&
                                 (xi == xj ==> vi == vj)) ==> vi in after[xi]
    requires (xi, xj) !in allowed ==> after == before
    ensures KeepsSolutions(orig, after, allowed)
  {
    forall s | Within(orig, s) && Satisfies(allowed, s) ensures Within(after, s) {
      assert Within(before, s);
      forall k: nat | k < |after| ensures k in s && s[k] in after[k] {
        assert k in s && s[k] in before[k];
        if k == xi && (xi, xj) in allowed {
          assert xj in s && s[xj] in before[xj];
          var vi, vj := s[xi], s[xj];
          assert vi in before[xi] && vj in before[xj] && (vi, vj) in allowed[(xi, xj)] && (xi == xj ==> vi == vj);
        } else if k != xi {
          assert after[k] == before[k];
        }
      }
    }
  }

  /**
   * The part of `q'` after its prefix `q` is the arcs `(xk, xi)` for the
   * sources `xk` in `done`, each exactly once.
   */
  ghost predicate AppendedOnce(q: seq<Arc>, q': seq<Arc>, xi: Var, done: set<nat>)
  {
    && |q'| == |q| + |done| && q'[..|q|] == q
    && (forall k :: |q| <= k < |q'| ==> q'[k].1 == xi && q'[k].0 in done)
    && (forall xk :: xk in done ==> (xk, xi) in q')
    && (forall k, l :: |q| <= k < l < |q'| ==> q'[k] != q'[l])
  }

  /** Appending the arc from a new source keeps `AppendedOnce`. */
  lemma AppendOnce(q: seq<Arc>, q': seq<Arc>, xi: Var, done: set<nat>, xk: nat)
    requires AppendedOnce(q, q', xi, done) && xk !in done
    ensures AppendedOnce(q, q' + [(xk, xi)], xi, done + {xk})
  {
    var q'' := q' + [(xk, xi)];
    assert q''[..|q|] == q'[..|q|];
    assert forall k :: |q| <= k < |q'| ==> q''[k] == q'[k] && q''[k] != (xk, xi);
    assert forall x :: x in done ==> (x, xi) in q'';
  }

  /**
   * Appends `(xk, xi)` for every neighbour `xk` of `xi` except `xj`, in an
   * unspecified order.
   */
  method Requeue(q: seq<Arc>, nbrs: set<nat>, xi: Var, xj: Var) returns (q': seq<Arc>)
    ensures |q'| >= |q| && q'[..|q|] == q
    ensures forall k :: |q| <= k < |q'| ==> q'[k].1 == xi && q'[k].0 in nbrs && q'[k].0 != xj
    ensures forall xk :: xk in nbrs && xk != xj ==> (xk, xi) in q'
    ensures |q'| == |q| + |nbrs - {xj}|
    ensures forall k, l :: |q| <= k < l < |q'| ==> q'[k] != q'[l]
  {
    q' := q;
    var todo := nbrs;
    ghost var done: set<nat> := {};
    while todo != {}
      invariant todo <= nbrs
      invariant forall x :: x in done <==> x in nbrs && x !in todo && x != xj
      invariant AppendedOnce(q, q', xi, done)
      decreases |todo|
    {
      var xk := Pick(todo);
      if xk != xj {
        AppendOnce(q, q', xi, done, xk);
        q' := q' + [(xk, xi)];
        done := done + {xk};
      }
      todo := todo - {xk};
    }
    assert done == nbrs - {xj};
  }

  /**
   * The loop invariant of AC-3 over the domains `d0` it started from: the
   * domains only shrink, every arc not waiting in `q` is consistent (on
   * converse tables), no solution is lost, and domains that were already
   * arc consistent are never touched.
   */
  ghost predicate Pending(n: nat, allowed: Tables, d0: seq<set<int>>, domains: seq<set<int>>, q: seq<Arc>)
  {
    && |d0| == n && |domains| == n
    && (forall k :: 0 <= k < n ==> domains[k] <= d0[k])
    && (forall k :: 0 <= k < |q| ==> q[k].0 < n && q[k].1 < n)
    && (Converse(allowed) ==> ConsistentOutside(domains, allowed, q))
    && KeepsSolutions(d0, domains, allowed)
    && (AllArcsConsistent(d0, allowed) ==> domains == d0)
  }

  /** The queue seeded with every arc that has a table satisfies the invariant. */
  lemma PendingInitially(n: nat, allowed: Tables, neighbors: seq<set<nat>>, d0: seq<set<int>>, q: seq<Arc>)
    requires WellFormed(n, allowed, neighbors) && |d0| == n
    requires forall a :: a in allowed <==> a in q
    ensures Pending(n, allowed, d0, d0, q)
  {
    forall k | 0 <= k < |q| ensures q[k].0 < n && q[k].1 < n {
      assert q[k] in allowed;
    }
  }

  /** Revising the head of the queue and re-queueing the arcs into `xi` keeps the invariant. */
  lemma {:induction false} ArcStep(
    n: nat, allowed: Tables, neighbors: seq<set<nat>>, d0: seq<set<int>>,
    before: seq<set<int>>, after: seq<set<int>>, xi: Var, xj: Var, tail: seq<Arc>, q': seq<Arc>)
    requires WellFormed(n, allowed, neighbors) && xi < n && xj < n
    requires Pending(n, allowed, d0, before, [(xi, xj)] + tail)
    requires Revision(before, after, allowed, xi, xj)
    requires |q'| >= |tail| && q'[..|tail|] == tail
    requires forall k :: |tail| <= k < |q'| ==> q'[k].1 == xi && q'[k].0 in neighbors[xi]
    requires after[xi] != before[xi] ==> forall xk :: xk in neighbors[xi] && xk != xj ==> (xk, xi) in q'
    ensures Pending(n, allowed, d0, after, q')
  {
    var q := [(xi, xj)] + tail;
    forall k | 0 <= k < |q'| ensures q'[k].0 < n && q'[k].1 < n {
      if k < |tail| {
        assert q'[k] == tail[k] == q[k + 1];
      }
    }
    forall a | a in tail ensures a in q' {
      var k :| 0 <= k < |tail| && tail[k] == a;
      assert q'[k] == a;
    }
    if Converse(allowed) {
      if (xi, xj) in allowed {
        if xi == xj {
          SwapInvolution(allowed[(xi, xj)]);
        } else {
          assert after[xj] == before[xj];
        }
        assert ArcConsistent(after, allowed, (xi, xj));
      }
      RevisionKeepsConsistency(n, allowed, neighbors, before, after, xi, xj, tail, q');
    }
    RevisionKeepsSolutions(d0, before, after, allowed, xi, xj);
    if AllArcsConsistent(d0, allowed) && (xi, xj) in allowed {
      assert ArcConsistent(before, allowed, (xi, xj));
    }
  }

  /** A revision never grows the total domain size, and shrinks it when it prunes. */
  lemma RevisionShrinks(before: seq<set<int>>, after: seq<set<int>>, allowed: Tables, xi: Var, xj: Var)
    requires Revision(before, after, allowed, xi, xj)
    ensures after == before[xi := after[xi]]
    ensures TotalSize(after) <= TotalSize(before)
    ensures after[xi] != before[xi] ==> TotalSize(after) < TotalSize(before)
  {
    TotalSizeShrinks(before, xi, after[xi]);
  }

  /** A revision that prunes keeps the solutions and shows the start was not arc consistent. */
  lemma PruningStep(
    n: nat, allowed: Tables, d0: seq<set<int>>, before: seq<set<int>>, after: seq<set<int>>, xi: Var, xj: Var, q: seq<Arc>)
    requires Pending(n, allowed, d0, before, q)
    requires Revision(before, after, allowed, xi, xj) && after[xi] != before[xi]
    ensures forall k :: 0 <= k < n ==> after[k] <= d0[k]
    ensures KeepsSolutions(d0, after, allowed)
    ensures !AllArcsConsistent(d0, allowed)
  {
    RevisionKeepsSolutions(d0, before, after, allowed, xi, xj);
    assert (xi, xj) in allowed && !ArcConsistent(before, allowed, (xi, xj));
  }

  /** The invariant over an empty queue gives what AC-3 promises on success. */
  lemma PendingDone(n: nat, allowed: Tables, d0: seq<set<int>>, domains: seq<set<int>>)
    requires Pending(n, allowed, d0, domains, [])
    ensures Converse(allowed) ==> AllArcsConsistent(domains, allowed)
  {
  }

  /**
   * One turn of the AC-3 loop: pops the head arc `(xi, xj)`, revises it and,
   * when `xi` lost values, either reports that its domain is empty or
   * re-queues the arcs into `xi`.
   */
  method ProcessArc(csp: Problem, ghost d0: seq<set<int>>, q: seq<Arc>) returns (q': seq<Arc>, emptied: bool)
    requires csp.Valid() && q != [] && Pending(csp.nVars, csp.allowed, d0, csp.domains, q)
    modifies csp
    ensures csp.Valid() && csp.nVars == old(csp.nVars)
    ensures csp.allowed == old(csp.allowed) && csp.neighbors == old(csp.neighbors)
    ensures TotalSize(csp.domains) < TotalSize(old(csp.domains))
            || (TotalSize(csp.domains) == TotalSize(old(csp.domains)) && |q'| < |q|)
    ensures emptied ==> exists k :: 0 <= k < csp.nVars && csp.domains[k] == {}
    ensures emptied ==> |csp.domains| == |d0| && forall k :: 0 <= k < |d0| ==> csp.domains[k] <= d0[k]
    ensures emptied ==> KeepsSolutions(d0, csp.domains, csp.allowed) && !AllArcsConsistent(d0, csp.allowed)
    ensures !emptied ==> Pending(csp.nVars, csp.allowed, d0, csp.domains, q')
  {
    var n, allowed, neighbors := csp.nVars, csp.allowed, csp.neighbors;
    var xi, xj := q[0].0, q[0].1;
    var tail := q[1..];
    assert q == [(xi, xj)] + tail;
    ghost var before := csp.domains;
    var revised := csp.Revise(xi, xj);
    ghost var after := csp.domains;
    RevisionShrinks(before, after, allowed, xi, xj);
    q' := tail;
    if revised {
      if csp.domains[xi] == {} {
        PruningStep(n, allowed, d0, before, after, xi, xj, q);
        return q', true;
      }
      q' := Requeue(q', neighbors[xi], xi, xj);
    }
    ArcStep(n, allowed, neighbors, d0, before, after, xi, xj, tail, q');
    emptied := false;
  }

  /**
   * Runs AC-3 on `csp` in place. Seeds the queue with every arc that has a
   * table (in an unspecified order) and returns false as soon as a revision
   * empties a domain.
   */
  method Ac3(csp: Problem) returns (ok: bool)
    requires csp.Valid()
    modifies csp
    ensures csp.Valid() && csp.nVars == old(csp.nVars)
    ensures csp.allowed == old(csp.allowed) && csp.neighbors == old(csp.neighbors)
    ensures |csp.domains| == |old(csp.domains)|
    ensures forall k :: 0 <= k < |csp.domains| ==> csp.domains[k] <= old(csp.domains[k])
    ensures !ok ==> exists k :: 0 <= k < csp.nVars && csp.domains[k] == {}
    ensures ok && Converse(csp.allowed) ==> AllArcsConsistent(csp.domains, csp.allowed)
    ensures KeepsSolutions(old(csp.domains), csp.domains, csp.allowed)
    ensures AllArcsConsistent(old(csp.domains), csp.allowed) ==> ok && csp.domains == old(csp.domains)
  {
    var n, allowed, neighbors := csp.nVars, csp.allowed, csp.neighbors;
    var q := SetToSeq(allowed.Keys);
    ghost var d0 := csp.domains;
    PendingInitially(n, allowed, neighbors, d0, q);
    while q != []
      invariant csp.Valid() && csp.nVars == n && csp.allowed == allowed && csp.neighbors == neighbors
      invariant Pending(n, allowed, d0, csp.domains, q)
      decreases TotalSize(csp.domains), |q|
    {
      var emptied;
      q, emptied := ProcessArc(csp, d0, q);
      if emptied {
        return false;
      }
    }
    PendingDone(n, allowed, d0, csp.domains);
    return true;
  }

  /**
   * Arc consistency is a fixpoint: on a model whose tables come in converse
   * pairs, a second run right after a successful one succeeds and prunes
   * nothing.
   */
  method Ac3Twice(csp: Problem) returns (first: bool, afterFirst: seq<set<int>>, second: bool)
    requires csp.Valid() && Converse(csp.allowed)
    modifies csp
    ensures first ==> second && csp.domains == afterFirst
  {
    first := Ac3(csp);
    afterFirst := csp.domains;
    second := Ac3(csp);
  }

  /**
   * Why `Ac3` and `Ac3Twice` ask for converse tables. Take `D0 = {1, 2}`,
   * `D1 = {1}`, the one-directional tables `T10 = {(1, 2)}` and
   * `T01 = {(1, 1)}`, and the queue `(1, 0), (0, 1)`. Revising `(1, 0)`
   * removes nothing. Revising `(0, 1)` removes 2 from `D0`. The only
   * neighbour of 0 is 1 = `xj`, so nothing is queued again and the run
   * returns true. Yet arc `(1, 0)` is then inconsistent, and a second run
   * empties `D1` on that arc and returns false.
   */
  lemma NonConverseCounterexample()
    ensures var allowed: Tables := map[(1, 0) := {(1, 2)}, (0, 1) := {(1, 1)}];
            var d0: seq<set<int>> := [{1, 2}, {1}];
            var d1 := d0[0 := Revised(d0[0], d0[1], allowed[(0, 1)])];
            && WellFormed(2, allowed, [{1}, {0}])
            && !Converse(allowed)
            && Revised(d0[1], d0[0], allowed[(1, 0)]) == d0[1]
            && d1 == [{1}, {1}] && d1[0] != d0[0]
            && !ArcConsistent(d1, allowed, (1, 0))
            && Revised(d1[1], d1[0], allowed[(1, 0)]) == {}
  {
    var allowed: Tables := map[(1, 0) := {(1, 2)}, (0, 1) := {(1, 1)}];
    assert Supported(1, {1, 2}, allowed[(1, 0)]) by { assert (1, 2) in allowed[(1, 0)]; }
    assert Supported(1, {1}, allowed[(0, 1)]) by { assert (1, 1) in allowed[(0, 1)]; }
    assert !Supported(2, {1}, allowed[(0, 1)]);
    assert !Supported(1, {1}, allowed[(1, 0)]);
    assert Revised({1, 2}, {1}, allowed[(0, 1)]) == {1};
    assert Revised({1}, {1, 2}, allowed[(1, 0)]) == {1};
    assert Revised({1}, {1}, allowed[(1, 0)]) == {};
    assert allowed[(0, 1)] != Swap(allowed[(1, 0)]) by { assert (2, 1) in Swap(allowed[(1, 0)]); }
  }
}
