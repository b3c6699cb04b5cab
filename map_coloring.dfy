/**
 * Map colouring as a CSP: one variable per region, the colours `1..k` as
 * every domain, and an all-different table on both arcs of every border.
 */
module MapColoring {
  import opened Wrappers
  import opened Collections
  import opened Csp
  import opened Backtracking

  /** A border between two regions, by name. */
  type Edge = (string, string)

  /**
   * Numbers the names from `base` by position; a name listed twice keeps
   * the number of its last position.
   */
  function Enumerate(names: seq<string>, base: nat): map<string, nat>
  {
    if names == [] then map[]
    else Enumerate(names[..|names| - 1], base)[names[|names| - 1] := base + |names| - 1]
  }

  /** `Enumerate` numbers exactly the listed names. */
  lemma {:induction false} EnumerateKeys(names: seq<string>, base: nat)
    ensures forall n :: n in Enumerate(names, base) <==> n in names
  {
    if names != [] {
      var init, last := names[..|names| - 1], names[|names| - 1];
      EnumerateKeys(init, base);
      forall n ensures n in names <==> n in init || n == last {
        if n in names {
          var k :| 0 <= k < |names| && names[k] == n;
          if k < |names| - 1 {
            assert init[k] == n;
          }
        }
      }
    }
  }

  /**
   * `Enumerate` numbers exactly the listed names, each by the position of
   * its last occurrence.
   */
  lemma {:induction false} EnumerateNumbers(names: seq<string>, base: nat)
    ensures forall n :: n in Enumerate(names, base) <==> n in names
    ensures forall n :: n in Enumerate(names, base) ==>
              var i := Enumerate(names, base)[n] - base; 0 <= i < |names| && names[i] == n
    ensures forall n, k :: n in Enumerate(names, base) && Enumerate(names, base)[n] - base < k < |names| ==> names[k] != n
  {
    EnumerateKeys(names, base);
    if names != [] {
      var init, last := names[..|names| - 1], names[|names| - 1];
      var m0, m := Enumerate(init, base), Enumerate(names, base);
      EnumerateNumbers(init, base);
      assert m == m0[last := base + |names| - 1];
      forall n | n in m ensures var i := m[n] - base; 0 <= i < |names| && names[i] == n {
        if n != last {
          assert names[m0[n] - base] == init[m0[n] - base];
        }
      }
      forall n, k | n in m && m[n] - base < k < |names| ensures names[k] != n {
        if n != last && k < |names| - 1 {
          assert init[k] == names[k];
        }
      }
    }
  }

  /** No two keys of `m` share a value. */
  ghost predicate Injective(m: map<string, nat>)
  {
    forall n1, n2 :: n1 in m && n2 in m && m[n1] == m[n2] ==> n1 == n2
  }

  /** `Enumerate` numbers different names differently. */
  lemma EnumerateIsInjective(names: seq<string>, base: nat)
    ensures Injective(Enumerate(names, base))
  {
    EnumerateNumbers(names, base);
  }

  /** The inverse of an injective map. */
  function Invert(m: map<string, nat>): (inv: map<int, string>)
    requires Injective(m)
    ensures forall n :: n in m ==> m[n] in inv && inv[m[n]] == n
    ensures forall i :: i in inv ==> inv[i] in m && m[inv[i]] == i
  {
    map n | n in m :: m[n] := n
  }

  /** The translations between names and numbers, both ways. */
  datatype MapEncoding = MapEncoding(
    regionToInt: map<string, nat>, intToRegion: map<int, string>,
    colorToInt: map<string, nat>, intToColor: map<int, string>)

  /** Each pair of maps in `enc` are inverse to each other. */
  ghost predicate InverseMaps(enc: MapEncoding)
  {
    && (forall n :: n in enc.regionToInt ==> enc.regionToInt[n] in enc.intToRegion && enc.intToRegion[enc.regionToInt[n]] == n)
    && (forall i :: i in enc.intToRegion ==> enc.intToRegion[i] in enc.regionToInt && enc.regionToInt[enc.intToRegion[i]] == i)
    && (forall c :: c in enc.colorToInt ==> enc.colorToInt[c] in enc.intToColor && enc.intToColor[enc.colorToInt[c]] == c)
    && (forall i :: i in enc.intToColor ==> enc.intToColor[i] in enc.colorToInt && enc.colorToInt[enc.intToColor[i]] == i)
  }

  /** The encoding of two name maps, with their inverses. */
  function MakeEncoding(regionToInt: map<string, nat>, colorToInt: map<string, nat>): (enc: MapEncoding)
    requires Injective(regionToInt) && Injective(colorToInt)
    ensures enc.regionToInt == regionToInt && enc.colorToInt == colorToInt
    ensures InverseMaps(enc)
  {
    MapEncoding(regionToInt, Invert(regionToInt), colorToInt, Invert(colorToInt))
  }

  /** The encoding `build_map_csp` makes: regions numbered from 0, colours from 1. */
  function EncodeNames(regions: seq<string>, colorNames: seq<string>): (enc: MapEncoding)
    ensures enc.regionToInt == Enumerate(regions, 0) && enc.colorToInt == Enumerate(colorNames, 1)
    ensures InverseMaps(enc)
  {
    EnumerateIsInjective(regions, 0);
    EnumerateIsInjective(colorNames, 1);
    MakeEncoding(Enumerate(regions, 0), Enumerate(colorNames, 1))
  }

  /** The colours `1..k`. */
  function Colors(k: nat): (d: set<int>)
    ensures forall c :: c in d <==> 1 <= c <= k
  {
    var d := set c | c in Range(k) :: c + 1;
    assert forall c: int :: 1 <= c <= k ==> c in d by {
      forall c: int | 1 <= c <= k ensures c in d {
        assert (c - 1) as nat in Range(k);
      }
    }
    d
  }

  /** Border `e` joins two different known regions and gives arc `a`, in either direction. */
  predicate IsArcOf(idx: map<string, nat>, e: Edge, a: Arc)
  {
    e.0 in idx && e.1 in idx && idx[e.0] != idx[e.1] && (a == (idx[e.0], idx[e.1]) || a == (idx[e.1], idx[e.0]))
  }

  /** Some border in `edges` gives arc `a`. */
  ghost predicate EdgeArc(idx: map<string, nat>, edges: seq<Edge>, a: Arc)
  {
    exists k :: 0 <= k < |edges| && IsArcOf(idx, edges[k], a)
  }

  /** Both regions of every border in `edges` are known. */
  ghost predicate KnownEdges(idx: map<string, nat>, edges: seq<Edge>)
  {
    forall k :: 0 <= k < |edges| ==> edges[k].0 in idx && edges[k].1 in idx
  }

  /**
   * The tables of the borders `edges`: every border names known regions,
   * and exactly the arcs of the borders between different regions carry the
   * all-different table of the `k` colours.
   */
  ghost predicate BorderTables(idx: map<string, nat>, edges: seq<Edge>, k: nat, allowed: Tables)
  {
    && KnownEdges(idx, edges)
    && (forall a :: a in allowed <==> EdgeArc(idx, edges, a))
    && (forall a :: a in allowed ==> allowed[a] == AllDiff(Colors(k), Colors(k)))
  }

  /**
   * The model of a map: every domain holds the `k` colours, and exactly the
   * arcs of the borders between different regions carry the all-different
   * table.
   */
  ghost predicate MapModel(regions: seq<string>, edges: seq<Edge>, k: nat, domains: seq<set<int>>, allowed: Tables)
  {
    && |domains| == |regions|
    && (forall v :: 0 <= v < |domains| ==> domains[v] == Colors(k))
    && BorderTables(Enumerate(regions, 0), edges, k, allowed)
  }

  /** The errors the map builder raises. */
  datatype MapError =
    | Construction(cause: ConstructionError)  // no regions or no colours
    | UnknownRegion(name: string)             // a border names a region not in the list

  /** The state of the border loop after the first `t` borders. */
  ghost predicate EdgeLoop(csp: Problem, regions: seq<string>, edges: seq<Edge>, k: nat, domains: seq<set<int>>, t: nat)
    reads csp
    requires t <= |edges|
  {
    && csp.Valid() && csp.nVars == |regions| && csp.domains == domains
    && (forall v :: 0 <= v < |domains| ==> domains[v] == Colors(k))
    && BorderTables(Enumerate(regions, 0), edges[..t], k, csp.allowed)
  }

  /** The arcs of the first `t + 1` borders are those of the first `t` and those of border `t`. */
  lemma EdgeArcStep(idx: map<string, nat>, edges: seq<Edge>, t: nat, a: Arc)
    requires t < |edges|
    ensures EdgeArc(idx, edges[..t + 1], a) <==> EdgeArc(idx, edges[..t], a) || IsArcOf(idx, edges[t], a)
  {
    var next := edges[..t + 1];
    if EdgeArc(idx, next, a) && !IsArcOf(idx, edges[t], a) {
      var k :| 0 <= k < |next| && IsArcOf(idx, next[k], a);
      assert edges[..t][k] == next[k];
    }
    if EdgeArc(idx, edges[..t], a) {
      var k :| 0 <= k < t && IsArcOf(idx, edges[..t][k], a);
      assert next[k] == edges[..t][k];
    }
    if IsArcOf(idx, edges[t], a) {
      assert next[t] == edges[t];
    }
  }

  /** Adding the tables of border `t` to those of the first `t` borders gives those of the first `t + 1`. */
  lemma BorderStep(idx: map<string, nat>, edges: seq<Edge>, t: nat, k: nat, before: Tables, after: Tables)
    requires t < |edges| && edges[t].0 in idx && edges[t].1 in idx
    requires BorderTables(idx, edges[..t], k, before)
    requires var i, j := idx[edges[t].0], idx[edges[t].1];
             var lo, hi := if i < j then i else j, if i < j then j else i;
             after == if i == j then before else before[(lo, hi) := AllDiff(Colors(k), Colors(k))][(hi, lo) := AllDiff(Colors(k), Colors(k))]
    ensures BorderTables(idx, edges[..t + 1], k, after)
  {
    forall a ensures a in after <==> EdgeArc(idx, edges[..t + 1], a) {
      EdgeArcStep(idx, edges, t, a);
    }
    assert edges[..t + 1][..t] == edges[..t];
  }

  /** Adds the all-different tables of border `t`, or fails when it names an unknown region. */
  method AddBorder(csp: Problem, regions: seq<string>, edges: seq<Edge>, k: nat, ghost domains: seq<set<int>>,
                   idx: map<string, nat>, t: nat) returns (err: Option<string>)
    requires idx == Enumerate(regions, 0)
    requires t < |edges| && EdgeLoop(csp, regions, edges, k, domains, t)
    modifies csp
    ensures err.None? <==> edges[t].0 in regions && edges[t].1 in regions
    ensures err.Some? ==> err.value == if edges[t].0 !in regions then edges[t].0 else edges[t].1
    ensures err.None? ==> EdgeLoop(csp, regions, edges, k, domains, t + 1)
  {
    EnumerateNumbers(regions, 0);
    var (a, b) := edges[t];
    if a !in idx {
      return Some(a);
    }
    if b !in idx {
      return Some(b);
    }
    var i, j := idx[a], idx[b];
    ghost var before := csp.allowed;
    if i < j {
      csp.AddAllDiffEdge(i, j);
    } else if j < i {
      csp.AddAllDiffEdge(j, i);
    }
    BorderStep(idx, edges, t, k, before, csp.allowed);
    return None;
  }

  /**
   * Builds the map model: numbers the regions from 0 and the colours from
   * 1, creates the model (which fails with no regions, or with no colours
   * because the first domain is then empty), then for each border between
   * two different regions adds the all-different tables in both
   * directions, failing at the first border that names an unknown region.
   */
  method BuildMapCsp(regions: seq<string>, edges: seq<Edge>, colorNames: seq<string>)
    returns (r: Result<(Problem, MapEncoding), MapError>)
    ensures r.Failure? && r.error.Construction? <==> regions == [] || colorNames == []
    ensures r.Failure? && r.error.Construction? ==> r.error.cause == if regions == [] then NoVariables else EmptyDomain(0)
    ensures r.Failure? && r.error.UnknownRegion? ==>
              regions != [] && colorNames != [] && r.error.name !in regions &&
              exists t :: 0 <= t < |edges| && r.error.name == (if edges[t].0 !in regions then edges[t].0 else edges[t].1) &&
                          forall u :: 0 <= u < t ==> edges[u].0 in regions && edges[u].1 in regions
    ensures r.Success? <==> regions != [] && colorNames != [] && forall t :: 0 <= t < |edges| ==> edges[t].0 in regions && edges[t].1 in regions
    ensures r.Success? ==> fresh(r.value.0) && r.value.0.Valid() && r.value.0.nVars == |regions|
    ensures r.Success? ==> MapModel(regions, edges, |colorNames|, r.value.0.domains, r.value.0.allowed)
    ensures r.Success? ==> r.value.1 == EncodeNames(regions, colorNames)
  {
    var regionToInt := Enumerate(regions, 0);
    EnumerateNumbers(regions, 0);
    var n := |regions|;
    var colors := Colors(|colorNames|);
    var domains := seq(n, _ => colors);
    assert colors == {} <==> colorNames == [] by {
      assert colorNames != [] ==> 1 in colors;
    }
    var created := Problem.Create(n, domains);
    if created.Failure? {
      return Failure(Construction(created.error));
    }
    var csp := created.value;
    for t := 0 to |edges|
      invariant EdgeLoop(csp, regions, edges, |colorNames|, domains, t)
    {
      var err := AddBorder(csp, regions, edges, |colorNames|, domains, regionToInt, t);
      if err.Some? {
        return Failure(UnknownRegion(err.value));
      }
    }
    assert edges[..|edges|] == edges;
    return Success((csp, EncodeNames(regions, colorNames)));
  }

  // ---------------------------------------------------------------------
  // Solutions as colourings.
  // ---------------------------------------------------------------------

  /**
   * The names of a solution: each variable's region mapped to the name of
   * its colour; `None` where a variable or a colour has no name.
   */
  function NameSolution(enc: MapEncoding, sol: map<Var, int>): (r: Option<map<string, string>>)
    requires InverseMaps(enc)
    ensures r.None? <==> exists v :: v in sol && (v !in enc.intToRegion || sol[v] !in enc.intToColor)
    ensures r.Some? ==> forall name :: name in r.value <==> name in enc.regionToInt && enc.regionToInt[name] in sol
    ensures r.Some? ==> forall name :: name in r.value ==>
              r.value[name] in enc.colorToInt && enc.colorToInt[r.value[name]] == sol[enc.regionToInt[name]]
  {
    if exists v :: v in sol && (v !in enc.intToRegion || sol[v] !in enc.intToColor) then None
    else
      var named := map v | v in sol :: enc.intToRegion[v] := enc.intToColor[sol[v]];
      assert forall v :: v in sol ==> named[enc.intToRegion[v]] == enc.intToColor[sol[v]];
      assert forall name :: name in named ==> enc.regionToInt[name] in sol && name == enc.intToRegion[enc.regionToInt[name]];
      assert forall name :: name in named ==>
               named[name] in enc.colorToInt && enc.colorToInt[named[name]] == sol[enc.regionToInt[name]] by {
        forall name | name in named
          ensures named[name] in enc.colorToInt && enc.colorToInt[named[name]] == sol[enc.regionToInt[name]]
        {
          var v := enc.regionToInt[name];
          assert enc.intToRegion[v] == name;
          assert v in sol && sol[v] in enc.intToColor;
          assert named[name] == enc.intToColor[sol[v]];
          var c := enc.intToColor[sol[v]];
          assert c in enc.colorToInt && enc.colorToInt[c] == sol[v];
        }
      }
      Some(named)
  }

  /**
   * `s` colours every region with one of the `k` colours and gives the two
   * regions of every border different colours.
   */
  ghost predicate ProperColoring(regions: seq<string>, edges: seq<Edge>, k: nat, s: map<Var, int>)
  {
    var idx := Enumerate(regions, 0);
    && (forall v: nat :: v < |regions| ==> v in s && 1 <= s[v] <= k)
    && (forall t :: 0 <= t < |edges| && edges[t].0 in idx && edges[t].1 in idx && idx[edges[t].0] != idx[edges[t].1] ==>
          idx[edges[t].0] in s && idx[edges[t].1] in s && s[idx[edges[t].0]] != s[idx[edges[t].1]])
  }

  /** Every proper colouring is a solution of the map model. */
  lemma ColoringIsSolution(regions: seq<string>, edges: seq<Edge>, k: nat, domains: seq<set<int>>, allowed: Tables, s: map<Var, int>)
    requires MapModel(regions, edges, k, domains, allowed)
    requires ProperColoring(regions, edges, k, s)
    ensures IsSolution(domains, allowed, s)
  {
    var idx := Enumerate(regions, 0);
    EnumerateNumbers(regions, 0);
    forall a | a in allowed && a.0 in s && a.1 in s ensures (s[a.0], s[a.1]) in allowed[a] {
      var t :| 0 <= t < |edges| && IsArcOf(idx, edges[t], a);
    }
  }

  /** Every solution the search reports on the map model is a proper colouring. */
  lemma SolutionIsColoring(regions: seq<string>, edges: seq<Edge>, k: nat, domains: seq<set<int>>, allowed: Tables, s: map<Var, int>)
    requires MapModel(regions, edges, k, domains, allowed)
    requires Sound(|regions|, allowed, domains, s)
    ensures ProperColoring(regions, edges, k, s)
  {
    var idx := Enumerate(regions, 0);
    EnumerateNumbers(regions, 0);
    forall t | 0 <= t < |edges| && edges[t].0 in idx && edges[t].1 in idx && idx[edges[t].0] != idx[edges[t].1]
      ensures idx[edges[t].0] in s && idx[edges[t].1] in s && s[idx[edges[t].0]] != s[idx[edges[t].1]]
    {
      var a := (idx[edges[t].0], idx[edges[t].1]);
      assert IsArcOf(idx, edges[t], a);
      assert a in allowed;
    }
  }

  // ---------------------------------------------------------------------
  // The Australia example.
  // ---------------------------------------------------------------------

  /** The seven regions of Australia; Tasmania (`T`) has no land border. */
  const AustraliaRegions: seq<string> := ["WA", "NT", "SA", "Q", "NSW", "V", "T"]

  /** The nine land borders between them. */
  const AustraliaBorders: seq<Edge> := [
    ("WA", "NT"), ("WA", "SA"), ("NT", "SA"), ("NT", "Q"), ("SA", "Q"),
    ("SA", "NSW"), ("SA", "V"), ("Q", "NSW"), ("NSW", "V")]

  /** The regions are numbered in the order listed. */
  lemma AustraliaNumbering()
    ensures Enumerate(AustraliaRegions, 0) == map["WA" := 0, "NT" := 1, "SA" := 2, "Q" := 3, "NSW" := 4, "V" := 5, "T" := 6]
  {
    var names := AustraliaRegions;
    assert Enumerate(names[..0], 0) == map[];
    EnumerateSnoc(names, 0, 0);
    assert Enumerate(names[..1], 0) == map["WA" := 0];
    EnumerateSnoc(names, 0, 1);
    assert Enumerate(names[..2], 0) == map["WA" := 0, "NT" := 1];
    EnumerateSnoc(names, 0, 2);
    assert Enumerate(names[..3], 0) == map["WA" := 0, "NT" := 1, "SA" := 2];
    EnumerateSnoc(names, 0, 3);
    assert Enumerate(names[..4], 0) == map["WA" := 0, "NT" := 1, "SA" := 2, "Q" := 3];
    EnumerateSnoc(names, 0, 4);
    assert Enumerate(names[..5], 0) == map["WA" := 0, "NT" := 1, "SA" := 2, "Q" := 3, "NSW" := 4];
    EnumerateSnoc(names, 0, 5);
    assert Enumerate(names[..6], 0) == map["WA" := 0, "NT" := 1, "SA" := 2, "Q" := 3, "NSW" := 4, "V" := 5];
    EnumerateSnoc(names, 0, 6);
    assert names[..7] == names;
  }

  /** Numbering one more name adds its number, overriding an earlier one. */
  lemma EnumerateSnoc(names: seq<string>, base: nat, i: nat)
    requires i < |names|
    ensures Enumerate(names[..i + 1], base) == Enumerate(names[..i], base)[names[i] := base + i]
  {
    assert names[..i + 1][..i] == names[..i];
  }

  /** The borders of Australia as pairs of region numbers. */
  const AustraliaBorderIds: seq<(nat, nat)> := [(0, 1), (0, 2), (1, 2), (1, 3), (2, 3), (2, 4), (2, 5), (3, 4), (4, 5)]

  /** Each border joins the two regions its numbers name. */
  lemma AustraliaBorderNumbers()
    ensures var idx := Enumerate(AustraliaRegions, 0);
            forall t :: 0 <= t < |AustraliaBorders| ==>
              AustraliaBorders[t].0 in idx && AustraliaBorders[t].1 in idx &&
              (idx[AustraliaBorders[t].0], idx[AustraliaBorders[t].1]) == AustraliaBorderIds[t]
  {
    AustraliaNumbering();
  }

  /** Builds the Australia map model with the given colour names. */
  method AustraliaExample(colors: seq<string>) returns (r: Result<(Problem, MapEncoding), MapError>)
    ensures r.Failure? <==> colors == []
    ensures r.Success? ==> fresh(r.value.0) && r.value.0.Valid() && r.value.0.nVars == |AustraliaRegions|
    ensures r.Success? ==> MapModel(AustraliaRegions, AustraliaBorders, |colors|, r.value.0.domains, r.value.0.allowed)
  {
    r := BuildMapCsp(AustraliaRegions, AustraliaBorders, colors);
  }

  /** With three colours or more, Australia has a proper colouring. */
  lemma AustraliaThreeColoring(k: nat)
    requires k >= 3
    ensures ProperColoring(AustraliaRegions, AustraliaBorders, k, map[0 := 1, 1 := 2, 2 := 3, 3 := 1, 4 := 2, 5 := 1, 6 := 1])
  {
    var s := map[0 := 1, 1 := 2, 2 := 3, 3 := 1, 4 := 2, 5 := 1, 6 := 1];
    var ids := AustraliaBorderIds;
    assert forall t :: 0 <= t < |ids| ==> ids[t].0 in s && ids[t].1 in s && s[ids[t].0] != s[ids[t].1] by {
      forall t | 0 <= t < |ids| ensures ids[t].0 in s && ids[t].1 in s && s[ids[t].0] != s[ids[t].1] {
        assert t == 0 || t == 1 || t == 2 || t == 3 || t == 4 || t == 5 || t == 6 || t == 7 || t == 8;
      }
    }
    AustraliaBorderNumbers();
  }

  /** Western Australia, the Northern Territory and South Australia border each other, so two colours are too few. */
  lemma AustraliaNeedsThreeColors(k: nat, s: map<Var, int>)
    ensures ProperColoring(AustraliaRegions, AustraliaBorders, k, s) ==> k >= 3
  {
    AustraliaBorderNumbers();
    if ProperColoring(AustraliaRegions, AustraliaBorders, k, s) {
      assert AustraliaBorderIds[0] == (0, 1) && AustraliaBorderIds[1] == (0, 2) && AustraliaBorderIds[2] == (1, 2);
      assert s[0] != s[1] && s[0] != s[2] && s[1] != s[2];
    }
  }

  /** The Australia model with `k` colours has a solution exactly when `k` is at least 3. */
  lemma AustraliaSolutions(k: nat, domains: seq<set<int>>, allowed: Tables)
    requires MapModel(AustraliaRegions, AustraliaBorders, k, domains, allowed)
    ensures k >= 3 ==> HasSolution(domains, allowed)
    ensures forall s :: Sound(|AustraliaRegions|, allowed, domains, s) ==> k >= 3
  {
    if k >= 3 {
      var coloring := map[0 := 1, 1 := 2, 2 := 3, 3 := 1, 4 := 2, 5 := 1, 6 := 1];
      AustraliaThreeColoring(k);
      ColoringIsSolution(AustraliaRegions, AustraliaBorders, k, domains, allowed, coloring);
    }
    forall s | Sound(|AustraliaRegions|, allowed, domains, s) ensures k >= 3 {
      SolutionIsColoring(AustraliaRegions, AustraliaBorders, k, domains, allowed, s);
      AustraliaNeedsThreeColors(k, s);
    }
  }

  /**
   * Colours Australia with the given colour names and search
   * configuration: the search finds a colouring with three colours or more
   * and reports that none exists with one or two.
   */
  method SolveAustralia(colors: seq<string>, config: Config) returns (r: Result<SearchOutcome, MapError>)
    requires KnownConfig(config)
    ensures r.Failure? <==> colors == []
    ensures |colors| >= 3 ==> r.Success? && r.value.Solution?
    ensures 1 <= |colors| <= 2 ==> r.Success? && r.value.NoSolution?
    ensures r.Success? && r.value.Solution? ==> ProperColoring(AustraliaRegions, AustraliaBorders, |colors|, r.value.values)
  {
    var built := AustraliaExample(colors);
    if built.Failure? {
      return Failure(built.error);
    }
    var csp := built.value.0;
    var k := |colors|;
    assert forall v :: 0 <= v < csp.nVars ==> 1 in csp.domains[v];
    AustraliaSolutions(k, csp.domains, csp.allowed);
    var outcome := BacktrackingSearch(csp, config);
    if outcome.Solution? {
      SolutionIsColoring(AustraliaRegions, AustraliaBorders, k, csp.domains, csp.allowed, outcome.values);
    }
    return Success(outcome);
  }
}
