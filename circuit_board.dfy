/**
 * Circuit-board layout as a CSP: one variable per part, whose values are
 * the ids of the lower-left positions where the part fits on the board,
 * and a non-overlap table between every two parts.
 */
module CircuitBoard {
  import opened Wrappers
  import opened Collections
  import opened Csp
  import opened Backtracking

  /** A board position `(x, y)`, with `y` counted from the bottom row. */
  type Pos = (int, int)

  /** A rectangular part and the character that draws it. */
  datatype Part = Part(name: string, w: int, h: int, glyph: char)

  /** A part whose drawing character defaults to the first letter of its name, or `#` for an empty name. */
  function MakePart(name: string, w: int, h: int, glyph: Option<char>): (p: Part)
    ensures p.name == name && p.w == w && p.h == h
    ensures glyph.Some? ==> p.glyph == glyph.value
    ensures glyph.None? ==> p.glyph == if name == [] then '#' else name[0]
  {
    Part(name, w, h, if glyph.Some? then glyph.value else if name == [] then '#' else name[0])
  }

  /** A `w` x `h` rectangle at `(x, y)` lies on a `boardW` x `boardH` board. */
  predicate Fits(boardW: int, boardH: int, x: int, y: int, w: int, h: int)
  {
    0 <= x && 0 <= y && x + w <= boardW && y + h <= boardH
  }

  /** Two rectangles overlap unless one lies wholly left of, right of, below or above the other. */
  predicate RectsOverlap(p1: Pos, w1: int, h1: int, p2: Pos, w2: int, h2: int)
  {
    !(p1.0 + w1 <= p2.0 || p2.0 + w2 <= p1.0 || p1.1 + h1 <= p2.1 || p2.1 + h2 <= p1.1)
  }

  /** The unit cell `c` lies inside the `w` x `h` rectangle at `p`. */
  predicate Covers(p: Pos, w: int, h: int, c: Pos)
  {
    p.0 <= c.0 < p.0 + w && p.1 <= c.1 < p.1 + h
  }

  /** Overlap does not depend on which rectangle comes first. */
  lemma RectsOverlapSymmetric(p1: Pos, w1: int, h1: int, p2: Pos, w2: int, h2: int)
    ensures RectsOverlap(p1, w1, h1, p2, w2, h2) <==> RectsOverlap(p2, w2, h2, p1, w1, h1)
  {
  }

  /** For rectangles of positive size, overlapping means sharing a unit cell. */
  lemma OverlapIffSharedCell(p1: Pos, w1: int, h1: int, p2: Pos, w2: int, h2: int)
    requires w1 > 0 && h1 > 0 && w2 > 0 && h2 > 0
    ensures RectsOverlap(p1, w1, h1, p2, w2, h2) <==> exists c :: Covers(p1, w1, h1, c) && Covers(p2, w2, h2, c)
  {
    if RectsOverlap(p1, w1, h1, p2, w2, h2) {
      var c := (if p1.0 < p2.0 then p2.0 else p1.0, if p1.1 < p2.1 then p2.1 else p1.1);
      assert Covers(p1, w1, h1, c) && Covers(p2, w2, h2, c);
    }
  }

  // ---------------------------------------------------------------------
  // Placements.
  // ---------------------------------------------------------------------

  /** `a` comes before `b` in x-major order: smaller `x`, or the same `x` and smaller `y`. */
  predicate XMajorBefore(a: Pos, b: Pos)
  {
    a.0 < b.0 || (a.0 == b.0 && a.1 < b.1)
  }

  /**
   * `m` lists, by id, every position where a `w` x `h` part fits, each once
   * and in x-major order.
   */
  ghost predicate PlacementList(boardW: int, boardH: int, w: int, h: int, m: seq<Pos>)
  {
    && (forall k :: 0 <= k < |m| ==> Fits(boardW, boardH, m[k].0, m[k].1, w, h))
    && (forall x, y :: Fits(boardW, boardH, x, y, w, h) ==> (x, y) in m)
    && (forall k, l :: 0 <= k < l < |m| ==> XMajorBefore(m[k], m[l]))
  }

  /** A part has no placement exactly when it is wider or taller than the board. */
  lemma NoPlacementWhenTooLarge(boardW: int, boardH: int, w: int, h: int, m: seq<Pos>)
    requires PlacementList(boardW, boardH, w, h, m)
    ensures m == [] <==> w > boardW || h > boardH
  {
    if w <= boardW && h <= boardH {
      assert Fits(boardW, boardH, 0, 0, w, h);
      assert (0, 0) in m;
    }
    if m != [] {
      assert Fits(boardW, boardH, m[0].0, m[0].1, w, h);
    }
  }

  /** Appends, for one column `x`, the positions `(x, y)` that fit, bottom to top. */
  method PlaceColumn(boardW: int, boardH: int, w: int, h: int, x: int, m0: seq<Pos>) returns (m: seq<Pos>)
    requires forall k :: 0 <= k < |m0| ==> Fits(boardW, boardH, m0[k].0, m0[k].1, w, h) && m0[k].0 < x
    requires forall k, l :: 0 <= k < l < |m0| ==> XMajorBefore(m0[k], m0[l])
    ensures |m| >= |m0| && m[..|m0|] == m0
    ensures forall k :: 0 <= k < |m| ==> Fits(boardW, boardH, m[k].0, m[k].1, w, h) && m[k].0 <= x
    ensures forall k :: |m0| <= k < |m| ==> m[k].0 == x
    ensures forall y :: Fits(boardW, boardH, x, y, w, h) ==> (x, y) in m
    ensures forall k, l :: 0 <= k < l < |m| ==> XMajorBefore(m[k], m[l])
  {
    m := m0;
    var y := 0;
    while y < boardH - h + 1
      invariant 0 <= y && (y <= boardH - h + 1 || y == 0)
      invariant |m| >= |m0| && m[..|m0|] == m0
      invariant forall k :: 0 <= k < |m| ==> Fits(boardW, boardH, m[k].0, m[k].1, w, h) && m[k].0 <= x
      invariant forall k :: |m0| <= k < |m| ==> m[k].0 == x && m[k].1 < y
      invariant forall y' :: Fits(boardW, boardH, x, y', w, h) && y' < y ==> (x, y') in m
      invariant forall k, l :: 0 <= k < l < |m| ==> XMajorBefore(m[k], m[l])
    {
      if Fits(boardW, boardH, x, y, w, h) {
        m := m + [(x, y)];
      }
      y := y + 1;
    }
  }

  /** The placement ids of one part: every fitting position, enumerated x-major, numbered from 0. */
  method EnumeratePlacements(boardW: int, boardH: int, w: int, h: int) returns (m: seq<Pos>)
    ensures PlacementList(boardW, boardH, w, h, m)
  {
    m := [];
    var x := 0;
    while x < boardW - w + 1
      invariant 0 <= x && (x <= boardW - w + 1 || x == 0)
      invariant forall k :: 0 <= k < |m| ==> Fits(boardW, boardH, m[k].0, m[k].1, w, h) && m[k].0 < x
      invariant forall x', y' :: Fits(boardW, boardH, x', y', w, h) && x' < x ==> (x', y') in m
      invariant forall k, l :: 0 <= k < l < |m| ==> XMajorBefore(m[k], m[l])
    {
      ghost var before := m;
      m := PlaceColumn(boardW, boardH, w, h, x, m);
      forall x', y' | Fits(boardW, boardH, x', y', w, h) && x' < x + 1 ensures (x', y') in m {
        if x' < x {
          var k :| 0 <= k < |before| && before[k] == (x', y');
          assert m[k] == (x', y');
        }
      }
      x := x + 1;
    }
  }

  /** The ids `0..k-1`, as a domain. */
  function Ids(k: nat): (d: set<int>)
    ensures forall v :: v in d <==> 0 <= v < k
  {
    var d := set v | v in Range(k) :: v as int;
    assert forall v: int :: 0 <= v < k ==> v in d by {
      forall v: int | 0 <= v < k ensures v in d {
        assert (v as nat) in Range(k);
      }
    }
    d
  }

  // ---------------------------------------------------------------------
  // Non-overlap tables.
  // ---------------------------------------------------------------------

  /** The placement-id pairs of parts `pi` and `pj` whose rectangles do not overlap. */
  function NonOverlap(mi: seq<Pos>, pi: Part, mj: seq<Pos>, pj: Part): (t: Table)
    ensures forall vi, vj :: (vi, vj) in t <==>
              0 <= vi < |mi| && 0 <= vj < |mj| && !RectsOverlap(mi[vi], pi.w, pi.h, mj[vj], pj.w, pj.h)
  {
    set vi: int, vj: int | 0 <= vi < |mi| && 0 <= vj < |mj| && !RectsOverlap(mi[vi], pi.w, pi.h, mj[vj], pj.w, pj.h) :: (vi, vj)
  }

  /** The table of the reverse arc is the swap of the table of the forward arc. */
  lemma SwapNonOverlap(mi: seq<Pos>, pi: Part, mj: seq<Pos>, pj: Part)
    ensures Swap(NonOverlap(mi, pi, mj, pj)) == NonOverlap(mj, pj, mi, pi)
  {
    var s, t := Swap(NonOverlap(mi, pi, mj, pj)), NonOverlap(mj, pj, mi, pi);
    forall p | p in s ensures p in t {
      RectsOverlapSymmetric(mi[p.1], pi.w, pi.h, mj[p.0], pj.w, pj.h);
    }
    forall p | p in t ensures p in s {
      RectsOverlapSymmetric(mi[p.1], pi.w, pi.h, mj[p.0], pj.w, pj.h);
      assert (p.1, p.0) in NonOverlap(mi, pi, mj, pj);
    }
  }

  /** Builds the non-overlap relation of two parts by visiting every pair of their placements. */
  method NonOverlapRelation(mi: seq<Pos>, pi: Part, mj: seq<Pos>, pj: Part) returns (rel: Table)
    ensures rel == NonOverlap(mi, pi, mj, pj)
  {
    rel := {};
    for vi := 0 to |mi|
      invariant forall p :: p in rel <==> p in NonOverlap(mi, pi, mj, pj) && p.0 < vi
    {
      for vj := 0 to |mj|
        invariant forall p :: p in rel <==> p in NonOverlap(mi, pi, mj, pj) && (p.0 < vi || (p.0 == vi && p.1 < vj))
      {
        if !RectsOverlap(mi[vi], pi.w, pi.h, mj[vj], pj.w, pj.h) {
          rel := rel + {(vi, vj)};
        }
      }
    }
  }

  /** A table inside the two domains is not changed by filtering it to them. */
  lemma FilterKeepsInside(t: Table, di: set<int>, dj: set<int>)
    requires forall p :: p in t ==> p.0 in di && p.1 in dj
    ensures Filter(t, di, dj) == t
  {
  }

  // ---------------------------------------------------------------------
  // The board model.
  // ---------------------------------------------------------------------

  /** The placement maps, one per part, indexed by variable. */
  datatype BoardEncoding = BoardEncoding(idToPos: seq<seq<Pos>>)

  /** Arc `(p, q)` joins two distinct parts among `0..n-1`. */
  predicate DistinctArc(n: nat, a: Arc)
  {
    a.0 < n && a.1 < n && a.0 != a.1
  }

  /** The table the board installs on arc `a`. */
  function BoardTable(enc: BoardEncoding, parts: seq<Part>, a: Arc): Table
    requires a.0 < |enc.idToPos| && a.1 < |enc.idToPos| && a.0 < |parts| && a.1 < |parts|
  {
    NonOverlap(enc.idToPos[a.0], parts[a.0], enc.idToPos[a.1], parts[a.1])
  }

  /**
   * What a built board holds: one placement list per part, each part's
   * domain the ids of its placements, and between every two distinct parts
   * the exact non-overlap table in each direction.
   */
  ghost predicate BoardModel(boardW: int, boardH: int, parts: seq<Part>, enc: BoardEncoding,
                             domains: seq<set<int>>, allowed: Tables)
  {
    && |enc.idToPos| == |parts| && |domains| == |parts|
    && (forall i :: 0 <= i < |parts| ==>
          PlacementList(boardW, boardH, parts[i].w, parts[i].h, enc.idToPos[i]) && domains[i] == Ids(|enc.idToPos[i]|))
    && (forall a :: a in allowed <==> DistinctArc(|parts|, a))
    && (forall a :: a in allowed ==> allowed[a] == BoardTable(enc, parts, a))
  }

  /** The arcs between parts `p < q` installed once the pair loop has reached `(i, j)`. */
  predicate ArcDone(i: nat, j: nat, a: Arc)
  {
    var lo, hi := if a.0 < a.1 then a.0 else a.1, if a.0 < a.1 then a.1 else a.0;
    lo < i || (lo == i && hi < j)
  }

  /** The tables present while the pair loop is at `(i, j)`. */
  ghost predicate TablesSoFar(n: nat, parts: seq<Part>, enc: BoardEncoding, allowed: Tables, i: nat, j: nat)
    requires |enc.idToPos| == n && |parts| == n
  {
    && (forall a :: a in allowed <==> DistinctArc(n, a) && ArcDone(i, j, a))
    && (forall a :: a in allowed ==> DistinctArc(n, a) && allowed[a] == BoardTable(enc, parts, a))
  }

  /** The state of the pair loop, for the model `csp` of `parts`. */
  ghost predicate PairLoop(csp: Problem, parts: seq<Part>, enc: BoardEncoding, domains: seq<set<int>>, i: nat, j: nat)
    reads csp
  {
    && csp.Valid() && csp.nVars == |parts| == |enc.idToPos| && csp.domains == domains
    && (forall k :: 0 <= k < |parts| ==> domains[k] == Ids(|enc.idToPos[k]|))
    && TablesSoFar(|parts|, parts, enc, csp.allowed, i, j)
  }

  /** Installing `(i, j)` and `(j, i)` moves the pair loop from `(i, j)` to `(i, j + 1)`. */
  lemma ArcDoneStep(i: nat, j: nat)
    requires i < j
    ensures forall a: Arc :: ArcDone(i, j + 1, a) <==> ArcDone(i, j, a) || a == (i, j) || a == (j, i)
  {
    forall a: Arc ensures ArcDone(i, j + 1, a) <==> ArcDone(i, j, a) || a == (i, j) || a == (j, i) {
      if a.0 < a.1 {
        assert ArcDone(i, j + 1, a) <==> a.0 < i || (a.0 == i && a.1 < j + 1);
      } else {
        assert ArcDone(i, j + 1, a) <==> a.1 < i || (a.1 == i && a.0 < j + 1);
      }
    }
  }

  /** Adding the tables of `(i, j)` and `(j, i)` to those present at `(i, j)` gives those present at `(i, j + 1)`. */
  lemma TablesStep(parts: seq<Part>, enc: BoardEncoding, before: Tables, after: Tables, i: nat, j: nat)
    requires i < j < |parts| == |enc.idToPos|
    requires TablesSoFar(|parts|, parts, enc, before, i, j)
    requires after == before[(i, j) := BoardTable(enc, parts, (i, j))][(j, i) := BoardTable(enc, parts, (j, i))]
    ensures TablesSoFar(|parts|, parts, enc, after, i, j + 1)
  {
    var n := |parts|;
    ArcDoneStep(i, j);
    forall a ensures a in after <==> DistinctArc(n, a) && ArcDone(i, j + 1, a) {
      assert a in after <==> a in before || a == (i, j) || a == (j, i);
    }
    forall a | a in after ensures DistinctArc(n, a) && after[a] == BoardTable(enc, parts, a) {
      if a != (i, j) && a != (j, i) {
        assert after[a] == before[a];
      }
    }
  }

  /** Installs the non-overlap table on arc `(i, j)` and its swap on `(j, i)`. */
  method ConstrainPair(csp: Problem, parts: seq<Part>, enc: BoardEncoding, ghost domains: seq<set<int>>, i: nat, j: nat)
    requires i < j < |parts| && PairLoop(csp, parts, enc, domains, i, j)
    modifies csp
    ensures PairLoop(csp, parts, enc, domains, i, j + 1)
  {
    var m := enc.idToPos;
    ghost var before := csp.allowed;
    var rel := NonOverlapRelation(m[i], parts[i], m[j], parts[j]);
    FilterKeepsInside(rel, csp.domains[i], csp.domains[j]);
    var _ := csp.AddBinaryConstraint(i, j, rel);
    var swapped := Swap(rel);
    SwapNonOverlap(m[i], parts[i], m[j], parts[j]);
    FilterKeepsInside(swapped, csp.domains[j], csp.domains[i]);
    var _ := csp.AddBinaryConstraint(j, i, swapped);
    TablesStep(parts, enc, before, csp.allowed, i, j);
  }

  /** Installs the non-overlap tables between part `i` and every later part, both directions. */
  method ConstrainPart(csp: Problem, parts: seq<Part>, enc: BoardEncoding, ghost domains: seq<set<int>>, i: nat)
    requires i < |parts| && PairLoop(csp, parts, enc, domains, i, i + 1)
    modifies csp
    ensures PairLoop(csp, parts, enc, domains, i + 1, i + 2)
  {
    for j := i + 1 to |parts|
      invariant PairLoop(csp, parts, enc, domains, i, j)
    {
      ConstrainPair(csp, parts, enc, domains, i, j);
    }
    assert forall a :: DistinctArc(|parts|, a) ==> (ArcDone(i, |parts|, a) <==> ArcDone(i + 1, i + 2, a));
  }

  /**
   * Builds the board CSP: enumerates each part's placements, creates the
   * model (which fails with no parts, or at the first part that is wider or
   * taller than the board because its domain is empty), then installs the
   * non-overlap table on `(i, j)` and its swap on `(j, i)` for every `i < j`.
   */
  method BuildBoardCsp(boardW: int, boardH: int, parts: seq<Part>) returns (r: Result<(Problem, BoardEncoding), ConstructionError>)
    ensures r.Failure? <==> parts == [] || exists i :: 0 <= i < |parts| && (parts[i].w > boardW || parts[i].h > boardH)
    ensures r.Failure? && parts == [] ==> r.error == NoVariables
    ensures r.Failure? && parts != [] ==>
              && r.error.EmptyDomain? && r.error.index < |parts|
              && (parts[r.error.index].w > boardW || parts[r.error.index].h > boardH)
              && forall i :: 0 <= i < r.error.index ==> parts[i].w <= boardW && parts[i].h <= boardH
    ensures r.Success? ==> fresh(r.value.0) && r.value.0.Valid() && r.value.0.nVars == |parts|
    ensures r.Success? ==> BoardModel(boardW, boardH, parts, r.value.1, r.value.0.domains, r.value.0.allowed)
  {
    var n := |parts|;
    var idToPos: seq<seq<Pos>> := [];
    var domains: seq<set<int>> := [];
    for i := 0 to n
      invariant |idToPos| == i && |domains| == i
      invariant forall k :: 0 <= k < i ==>
                  PlacementList(boardW, boardH, parts[k].w, parts[k].h, idToPos[k]) && domains[k] == Ids(|idToPos[k]|)
    {
      var m := EnumeratePlacements(boardW, boardH, parts[i].w, parts[i].h);
      idToPos := idToPos + [m];
      domains := domains + [Ids(|m|)];
    }
    forall k | 0 <= k < n ensures domains[k] == {} <==> parts[k].w > boardW || parts[k].h > boardH {
      NoPlacementWhenTooLarge(boardW, boardH, parts[k].w, parts[k].h, idToPos[k]);
      if |idToPos[k]| > 0 {
        assert 0 in domains[k];
      }
    }
    var created := Problem.Create(n, domains);
    if created.Failure? {
      return Failure(created.error);
    }
    var csp := created.value;
    var enc := BoardEncoding(idToPos);
    for i := 0 to n
      invariant PairLoop(csp, parts, enc, domains, i, i + 1)
    {
      ConstrainPart(csp, parts, enc, domains, i);
    }
    return Success((csp, enc));
  }

  // ---------------------------------------------------------------------
  // Reading solutions back.
  // ---------------------------------------------------------------------

  /** Each solved part's lower-left position. */
  function DecodeSolutionPositions(enc: BoardEncoding, sol: map<Var, int>): (pos: map<Var, Pos>)
    requires forall i :: i in sol ==> i < |enc.idToPos| && 0 <= sol[i] < |enc.idToPos[i]|
    ensures pos.Keys == sol.Keys
    ensures forall i :: i in sol ==> pos[i] == enc.idToPos[i][sol[i]]
  {
    map i | i in sol :: enc.idToPos[i][sol[i]]
  }

  /**
   * `pos` lays the parts out on the board: every part has a position at
   * which it fits, and no two parts overlap.
   */
  ghost predicate IsLayout(boardW: int, boardH: int, parts: seq<Part>, pos: map<Var, Pos>)
  {
    && (forall i: nat :: i < |parts| ==> i in pos && Fits(boardW, boardH, pos[i].0, pos[i].1, parts[i].w, parts[i].h))
    && (forall i: nat, j: nat :: i < |parts| && j < |parts| && i != j ==>
          !RectsOverlap(pos[i], parts[i].w, parts[i].h, pos[j], parts[j].w, parts[j].h))
  }

  /** A solution of the board model decodes to a layout. */
  lemma SolutionIsLayout(boardW: int, boardH: int, parts: seq<Part>, enc: BoardEncoding,
                         domains: seq<set<int>>, allowed: Tables, sol: map<Var, int>)
    requires BoardModel(boardW, boardH, parts, enc, domains, allowed)
    requires Sound(|parts|, allowed, domains, sol)
    ensures forall i :: i in sol ==> i < |enc.idToPos| && 0 <= sol[i] < |enc.idToPos[i]|
    ensures IsLayout(boardW, boardH, parts, DecodeSolutionPositions(enc, sol))
  {
    forall i | i in sol ensures i < |enc.idToPos| && 0 <= sol[i] < |enc.idToPos[i]| {
      assert sol[i] in domains[i];
    }
    var pos := DecodeSolutionPositions(enc, sol);
    forall i: nat, j: nat | i < |parts| && j < |parts| && i != j
      ensures !RectsOverlap(pos[i], parts[i].w, parts[i].h, pos[j], parts[j].w, parts[j].h)
    {
      assert DistinctArc(|parts|, (i, j));
      assert (sol[i], sol[j]) in BoardTable(enc, parts, (i, j));
    }
  }

  /** The id under which position `p` appears in the placement list `m`. */
  function IdOf(m: seq<Pos>, p: Pos): (k: nat)
    requires p in m
    ensures k < |m| && m[k] == p
  {
    if m[0] == p then 0 else 1 + IdOf(m[1..], p)
  }

  /** The ids of a non-overlapping layout meet every non-overlap table. */
  lemma LayoutMeetsTables(parts: seq<Part>, enc: BoardEncoding, allowed: Tables, pos: map<Var, Pos>, s: map<Var, int>)
    requires |parts| == |enc.idToPos|
    requires forall a :: a in allowed ==> DistinctArc(|parts|, a) && allowed[a] == BoardTable(enc, parts, a)
    requires forall i: nat :: i < |parts| ==> i in pos
    requires forall i: nat, j: nat :: i < |parts| && j < |parts| && i != j ==>
               !RectsOverlap(pos[i], parts[i].w, parts[i].h, pos[j], parts[j].w, parts[j].h)
    requires forall i: nat :: i in s ==> i < |parts| && 0 <= s[i] < |enc.idToPos[i]| && enc.idToPos[i][s[i]] == pos[i]
    ensures Satisfies(allowed, s)
  {
    forall a | a in allowed && a.0 in s && a.1 in s ensures (s[a.0], s[a.1]) in allowed[a] {
      assert DistinctArc(|parts|, a);
    }
  }

  /** Conversely, every layout of the parts on the board is a solution of the board model. */
  lemma LayoutIsSolution(boardW: int, boardH: int, parts: seq<Part>, enc: BoardEncoding,
                         domains: seq<set<int>>, allowed: Tables, pos: map<Var, Pos>)
    requires BoardModel(boardW, boardH, parts, enc, domains, allowed)
    requires IsLayout(boardW, boardH, parts, pos)
    ensures HasSolution(domains, allowed)
  {
    var n := |parts|;
    var m := enc.idToPos;
    assert forall i: nat :: i < n ==> pos[i] in m[i] by {
      forall i: nat | i < n ensures pos[i] in m[i] {
        assert PlacementList(boardW, boardH, parts[i].w, parts[i].h, m[i]);
        assert (pos[i].0, pos[i].1) in m[i];
      }
    }
    var s := map i: nat | i < n :: IdOf(m[i], pos[i]);
    assert Within(domains, s);
    LayoutMeetsTables(parts, enc, allowed, pos, s);
    assert IsSolution(domains, allowed, s);
  }

  /**
   * Builds the board model, searches it with `config` and decodes the
   * answer: a layout when the search finds one, `None` when the search
   * finds none, which happens only when no layout exists.
   */
  method SolveBoard(boardW: int, boardH: int, parts: seq<Part>, config: Config) returns (r: Result<Option<map<Var, Pos>>, ConstructionError>)
    requires KnownConfig(config)
    ensures r.Failure? <==> parts == [] || exists i :: 0 <= i < |parts| && (parts[i].w > boardW || parts[i].h > boardH)
    ensures r.Success? && r.value.Some? ==> IsLayout(boardW, boardH, parts, r.value.value)
    ensures r.Success? && r.value.None? ==> forall pos :: !IsLayout(boardW, boardH, parts, pos)
  {
    var built := BuildBoardCsp(boardW, boardH, parts);
    if built.Failure? {
      return Failure(built.error);
    }
    var csp, enc := built.value.0, built.value.1;
    assert BoardModel(boardW, boardH, parts, enc, csp.domains, csp.allowed);
    forall k | 0 <= k < csp.nVars ensures csp.domains[k] != {} {
      NoPlacementWhenTooLarge(boardW, boardH, parts[k].w, parts[k].h, enc.idToPos[k]);
      assert 0 in csp.domains[k];
    }
    var outcome := BacktrackingSearch(csp, config);
    if outcome.Solution? {
      SolutionIsLayout(boardW, boardH, parts, enc, csp.domains, csp.allowed, outcome.values);
      return Success(Some(DecodeSolutionPositions(enc, outcome.values)));
    }
    forall pos | IsLayout(boardW, boardH, parts, pos) ensures false {
      LayoutIsSolution(boardW, boardH, parts, enc, csp.domains, csp.allowed, pos);
    }
    return Success(None);
  }

  // ---------------------------------------------------------------------
  // Drawing.
  // ---------------------------------------------------------------------

  /**
   * The character of cell `c` after drawing the parts in `order`: the last
   * part in the order covering `c`, or `.` when none does.
   */
  function Painted(parts: seq<Part>, pos: map<Var, Pos>, order: seq<Var>, c: Pos): char
    requires forall k :: 0 <= k < |order| ==> order[k] in pos && order[k] < |parts|
  {
    if order == [] then '.'
    else
      var i := order[|order| - 1];
      if Covers(pos[i], parts[i].w, parts[i].h, c) then parts[i].glyph
      else Painted(parts, pos, order[..|order| - 1], c)
  }

  /**
   * When no two drawn parts overlap, the picture does not depend on the
   * drawing order: a cell shows the character of the part covering it.
   */
  lemma {:induction false} PaintedByOwner(parts: seq<Part>, pos: map<Var, Pos>, order: seq<Var>, c: Pos, owner: Var)
    requires forall k :: 0 <= k < |order| ==> order[k] in pos && order[k] < |parts|
    requires forall i, j :: i in order && j in order && i != j ==>
               !RectsOverlap(pos[i], parts[i].w, parts[i].h, pos[j], parts[j].w, parts[j].h)
    requires owner in order && Covers(pos[owner], parts[owner].w, parts[owner].h, c)
    ensures Painted(parts, pos, order, c) == parts[owner].glyph
  {
    var i := order[|order| - 1];
    var init := order[..|order| - 1];
    if i == owner {
    } else {
      if Covers(pos[i], parts[i].w, parts[i].h, c) {
        OverlapIffSharedCell(pos[i], parts[i].w, parts[i].h, pos[owner], parts[owner].w, parts[owner].h);
        assert false;
      }
      assert owner in init by {
        var k :| 0 <= k < |order| && order[k] == owner;
        assert k < |order| - 1;
        assert init[k] == owner;
      }
      assert forall k :: 0 <= k < |init| ==> init[k] == order[k];
      PaintedByOwner(parts, pos, init, c, owner);
    }
  }

  /** `rows` joined with newlines between them, as one string. */
  function JoinLines(rows: seq<string>): string
  {
    if rows == [] then ""
    else if |rows| == 1 then rows[0]
    else JoinLines(rows[..|rows| - 1]) + "\n" + rows[|rows| - 1]
  }

  /** The position of the last `ch` in `s`, or -1 when there is none. */
  function LastIndexOf(s: string, ch: char): (k: int)
    ensures -1 <= k < |s|
    ensures k >= 0 ==> s[k] == ch
    ensures forall j :: k < j < |s| ==> s[j] != ch
  {
    if s == [] then -1
    else if s[|s| - 1] == ch then |s| - 1
    else LastIndexOf(s[..|s| - 1], ch)
  }

  /** `text` cut at every newline. */
  function SplitLines(text: string): (rows: seq<string>)
    decreases |text|
  {
    var k := LastIndexOf(text, '\n');
    if k < 0 then [text] else SplitLines(text[..k]) + [text[k + 1..]]
  }

  /** In `prefix`, a newline, then a line without one, the last newline is the one after `prefix`. */
  lemma LastNewlineOfJoin(prefix: string, last: string)
    requires '\n' !in last
    ensures var text := prefix + "\n" + last;
            var k := |prefix|;
            LastIndexOf(text, '\n') == k && text[..k] == prefix && text[k + 1..] == last
  {
    var text := prefix + "\n" + last;
    var k := |prefix|;
    var found := LastIndexOf(text, '\n');
    assert text[k] == '\n';
    assert text[..k] == prefix;
    assert text[k + 1..] == last;
  }

  /** Cutting the drawing at its newlines gives back its rows, as long as no row holds a newline. */
  lemma {:induction false} SplitJoinLines(rows: seq<string>)
    requires rows != []
    requires forall r :: 0 <= r < |rows| ==> '\n' !in rows[r]
    ensures SplitLines(JoinLines(rows)) == rows
  {
    var last := rows[|rows| - 1];
    if |rows| == 1 {
      assert LastIndexOf(last, '\n') < 0;
    } else {
      var init := rows[..|rows| - 1];
      assert forall r :: 0 <= r < |init| ==> '\n' !in init[r];
      var text := JoinLines(init) + "\n" + last;
      assert JoinLines(rows) == text;
      LastNewlineOfJoin(JoinLines(init), last);
      SplitJoinLines(init);
    }
  }

  /** Writes `ch` into every cell of the `w` x `h` rectangle at `p`; row 0 of `grid` is the top of the board. */
  method FillRect(grid: array2<char>, p: Pos, w: int, h: int, ch: char)
    requires Fits(grid.Length1, grid.Length0, p.0, p.1, w, h)
    modifies grid
    ensures forall r, c :: 0 <= r < grid.Length0 && 0 <= c < grid.Length1 ==>
              grid[r, c] == if Covers(p, w, h, (c, grid.Length0 - 1 - r)) then ch else old(grid[r, c])
  {
    var boardH := grid.Length0;
    var width := if w < 0 then 0 else w;
    var height := if h < 0 then 0 else h;
    for dx := 0 to width
      invariant forall r, c :: 0 <= r < grid.Length0 && 0 <= c < grid.Length1 ==>
                  grid[r, c] == if Covers(p, dx, h, (c, boardH - 1 - r)) then ch else old(grid[r, c])
    {
      for dy := 0 to height
        invariant forall r, c :: 0 <= r < grid.Length0 && 0 <= c < grid.Length1 ==>
                    grid[r, c] == if Covers(p, dx, h, (c, boardH - 1 - r)) || (c == p.0 + dx && p.1 <= boardH - 1 - r < p.1 + dy)
                                  then ch else old(grid[r, c])
      {
        var gx, gy := p.0 + dx, p.1 + dy;
        grid[boardH - 1 - gy, gx] := ch;
      }
    }
  }

  /** The drawing of the parts placed at `pos`, in `order`: `rows` lines of `cols` cells, the top line first. */
  function Picture(parts: seq<Part>, pos: map<Var, Pos>, order: seq<Var>, boardH: int, rows: nat, cols: nat): seq<string>
    requires forall k :: 0 <= k < |order| ==> order[k] in pos && order[k] < |parts|
  {
    seq(rows, r => seq(cols, c => Painted(parts, pos, order, (c, boardH - 1 - r))))
  }

  /** Draws the parts placed at `pos` onto `grid`, in `order`. */
  method PaintAll(grid: array2<char>, parts: seq<Part>, pos: map<Var, Pos>, order: seq<Var>)
    requires forall k :: 0 <= k < |order| ==> order[k] in pos && order[k] < |parts|
    requires forall k :: 0 <= k < |order| ==>
               var i := order[k]; Fits(grid.Length1, grid.Length0, pos[i].0, pos[i].1, parts[i].w, parts[i].h)
    requires forall r, c :: 0 <= r < grid.Length0 && 0 <= c < grid.Length1 ==> grid[r, c] == '.'
    modifies grid
    ensures forall r, c :: 0 <= r < grid.Length0 && 0 <= c < grid.Length1 ==>
              grid[r, c] == Painted(parts, pos, order, (c, grid.Length0 - 1 - r))
  {
    for t := 0 to |order|
      invariant forall r, c :: 0 <= r < grid.Length0 && 0 <= c < grid.Length1 ==>
                  grid[r, c] == Painted(parts, pos, order[..t], (c, grid.Length0 - 1 - r))
    {
      var i := order[t];
      assert order[..t + 1][..t] == order[..t];
      FillRect(grid, pos[i], parts[i].w, parts[i].h, parts[i].glyph);
    }
    assert order[..|order|] == order;
  }

  /** The rows of `grid` as strings, the top row first. */
  function GridLines(grid: array2<char>): (lines: seq<string>)
    reads grid
    ensures |lines| == grid.Length0
    ensures forall r :: 0 <= r < grid.Length0 ==> |lines[r]| == grid.Length1 && forall c :: 0 <= c < grid.Length1 ==> lines[r][c] == grid[r, c]
  {
    seq(grid.Length0, (r: int) requires 0 <= r < grid.Length0 reads grid =>
      seq(grid.Length1, (c: int) requires 0 <= c < grid.Length1 reads grid => grid[r, c]))
  }

  /**
   * Draws the solved parts, in the order `order` in which `sol` lists them,
   * onto a board of `.` cells, the top row first; later parts overwrite
   * earlier ones where they overlap.
   */
  method RenderAscii(boardW: int, boardH: int, parts: seq<Part>, sol: map<Var, int>, enc: BoardEncoding, order: seq<Var>)
    returns (text: string)
    requires Enumerates(order, sol.Keys)
    requires forall i :: i in sol ==> i < |parts| && i < |enc.idToPos| && 0 <= sol[i] < |enc.idToPos[i]|
    requires forall i :: i in sol ==> Fits(boardW, boardH, enc.idToPos[i][sol[i]].0, enc.idToPos[i][sol[i]].1, parts[i].w, parts[i].h)
    ensures forall k :: 0 <= k < |order| ==> order[k] in sol
    ensures text == JoinLines(Picture(parts, DecodeSolutionPositions(enc, sol), order, boardH,
                                      if boardH < 0 then 0 else boardH, if boardW < 0 then 0 else boardW))
  {
    assert forall k :: 0 <= k < |order| ==> order[k] in sol by {
      forall k | 0 <= k < |order| ensures order[k] in sol {
        assert order[k] in order;
      }
    }
    var rows := if boardH < 0 then 0 else boardH;
    var cols := if boardW < 0 then 0 else boardW;
    var grid := new char[rows, cols]((r, c) => '.');
    var pos := DecodeSolutionPositions(enc, sol);
    PaintAll(grid, parts, pos, order);
    var lines := GridLines(grid);
    var picture := Picture(parts, pos, order, boardH, rows, cols);
    forall r | 0 <= r < rows ensures lines[r] == picture[r] {
      assert |lines[r]| == |picture[r]| == cols;
      forall c | 0 <= c < cols ensures lines[r][c] == picture[r][c] {
        assert lines[r][c] == grid[r, c];
      }
    }
    assert lines == picture;
    text := JoinLines(lines);
  }

  // ---------------------------------------------------------------------
  // The example board.
  // ---------------------------------------------------------------------

  /** The example: a 10 x 3 board with parts `a` (3 x 2), `b` (5 x 2), `c` (2 x 3) and `e` (7 x 1). */
  function ExampleFromPrompt(): (int, int, seq<Part>)
  {
    (10, 3, [Part("a", 3, 2, 'a'), Part("b", 5, 2, 'b'), Part("c", 2, 3, 'c'), Part("e", 7, 1, 'e')])
  }

  /** The example parts fit: `c` on the left, `a` and `b` side by side below `e`. */
  lemma ExampleHasLayout()
    ensures var (boardW, boardH, parts) := ExampleFromPrompt();
            IsLayout(boardW, boardH, parts, map[0 := (2, 0), 1 := (5, 0), 2 := (0, 0), 3 := (2, 2)])
  {
    var (boardW, boardH, parts) := ExampleFromPrompt();
    var pos := map[0 := (2, 0), 1 := (5, 0), 2 := (0, 0), 3 := (2, 2)];
    forall i: nat, j: nat | i < |parts| && j < |parts| && i != j
      ensures !RectsOverlap(pos[i], parts[i].w, parts[i].h, pos[j], parts[j].w, parts[j].h)
    {
      if j < i {
        RectsOverlapSymmetric(pos[i], parts[i].w, parts[i].h, pos[j], parts[j].w, parts[j].h);
      }
    }
  }

  /** Every search configuration lays the example out. */
  method SolveExample(config: Config) returns (r: Result<Option<map<Var, Pos>>, ConstructionError>)
    requires KnownConfig(config)
    ensures r.Success? && r.value.Some?
    ensures var (boardW, boardH, parts) := ExampleFromPrompt(); IsLayout(boardW, boardH, parts, r.value.value)
  {
    var (boardW, boardH, parts) := ExampleFromPrompt();
    ExampleHasLayout();
    r := SolveBoard(boardW, boardH, parts, config);
  }
}
