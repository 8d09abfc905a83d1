/**
 * The city-map layer over the graph store: building a graph from a validated
 * map file, Dijkstra over the store, and the name-based queries.
 *
 * A node's payload is an optional POI record: a named POI from a POI line, a
 * nameless intersection created for an unknown road source, or no payload at
 * all for an unknown road destination. An edge's payload is the road name.
 */
module CityData {
  import opened Wrappers
  import opened GraphStore
  import opened Validator
  import SP = ShortestPath

  /** poi_data_t: a name (absent for an intersection) and the coordinates. */
  datatype PoiData = PoiData(name: Option<string>, latitude: Double, longitude: Double)

  type CityNode = Node<Option<PoiData>, string>

  // ---------------------------------------------------------------------------
  // Reading ids
  // ---------------------------------------------------------------------------

  /** The run of decimal digits a string starts with. */
  function LeadingDigits(s: string): (r: string)
    ensures |r| <= |s| && r == s[..|r|]
    ensures forall i :: 0 <= i < |r| ==> IsDigit(r[i])
    ensures AllDigits(s) ==> r == s
  {
    if |s| == 0 || !IsDigit(s[0]) then [] else [s[0]] + LeadingDigits(s[1..])
  }

  /** The value of a string of decimal digits, most significant first. */
  function DigitsValue(s: string): nat
    requires forall i :: 0 <= i < |s| ==> IsDigit(s[i])
  {
    if |s| == 0 then 0
    else
      var c := s[|s| - 1];
      assert IsDigit(c);
      10 * DigitsValue(s[..|s| - 1]) + (c as int - '0' as int)
  }

  /** atoi on the strings the loader gives it: the value of the leading digits. */
  function Atoi(s: string): nat
  {
    DigitsValue(LeadingDigits(s))
  }

  // ---------------------------------------------------------------------------
  // The graph a map file describes
  // ---------------------------------------------------------------------------

  /** One POI line: a node with a named payload, unless the line does not scan or its id is taken. */
  function PoiStep(ns: seq<CityNode>, sc: Scanner, line: string): seq<CityNode>
  {
    match sc.poi(line)
    case None => ns
    case Some(f) => AddNodeSpec(ns, Atoi(f.id), Some(PoiData(Some(f.name), f.latitude, f.longitude)))
  }

  /** The POI lines, first to last. */
  function AddPois(ns: seq<CityNode>, sc: Scanner, ls: seq<string>): seq<CityNode>
  {
    if |ls| == 0 then ns else PoiStep(AddPois(ns, sc, ls[..|ls| - 1]), sc, ls[|ls| - 1])
  }

  /** The weight a road line gives its edge: its distance, with NaN read as 0. */
  function RoadWeight(d: Double): real
  {
    if d.NaN? then 0.0 else d.value
  }

  /**
   * One road line: an unknown source becomes a nameless intersection at the
   * line's coordinates, an unknown destination a node without payload, then
   * the edge is added unless the pair already has one.
   */
  function RoadStep(ns: seq<CityNode>, sc: Scanner, line: string): seq<CityNode>
  {
    match sc.road(line)
    case None => ns
    case Some(f) =>
      var from, to := Atoi(f.fromId), Atoi(f.toId);
      var withFrom := AddNodeSpec(ns, from, Some(PoiData(None, f.latitude, f.longitude)));
      var withTo := AddNodeSpec(withFrom, to, None);
      AddEdgeSpec(withTo, from, to, RoadWeight(f.distance), f.name)
  }

  /** The road lines, first to last. */
  function AddRoads(ns: seq<CityNode>, sc: Scanner, ls: seq<string>): seq<CityNode>
  {
    if |ls| == 0 then ns else RoadStep(AddRoads(ns, sc, ls[..|ls| - 1]), sc, ls[|ls| - 1])
  }

  /** One more POI line extends the fold by one step. */
  lemma AddPoisStep(ns: seq<CityNode>, sc: Scanner, ls: seq<string>, i: nat)
    requires i < |ls|
    ensures AddPois(ns, sc, ls[..i + 1]) == PoiStep(AddPois(ns, sc, ls[..i]), sc, ls[i])
  {
    assert ls[..i + 1][..i] == ls[..i];
  }

  /** One more road line extends the fold by one step. */
  lemma AddRoadsStep(ns: seq<CityNode>, sc: Scanner, ls: seq<string>, i: nat)
    requires i < |ls|
    ensures AddRoads(ns, sc, ls[..i + 1]) == RoadStep(AddRoads(ns, sc, ls[..i]), sc, ls[i])
  {
    assert ls[..i + 1][..i] == ls[..i];
  }

  /** The graph a well-formed file describes: its POI lines, then its road lines. */
  function Build(lines: seq<string>, sc: Scanner): seq<CityNode>
    requires Accepted(lines, sc)
  {
    var n := PositiveCount(sc, lines[0]).value;
    var m := PositiveCount(sc, lines[n + 1]).value;
    AddRoads(AddPois([], sc, lines[1..n + 1]), sc, lines[n + 2..n + m + 2])
  }

  // ---------------------------------------------------------------------------
  // What the loader's rules mean
  // ---------------------------------------------------------------------------

  /** No POI line of ls scans to the id x. */
  predicate NoPoiWithId(sc: Scanner, ls: seq<string>, x: int)
  {
    forall j :: 0 <= j < |ls| ==> sc.poi(ls[j]).None? || Atoi(sc.poi(ls[j]).value.id) != x
  }

  /** POI lines none of which has id x add no node with id x. */
  lemma {:induction false} PoisAbsent(ns: seq<CityNode>, sc: Scanner, ls: seq<string>, x: int)
    requires IndexOf(ns, x).None? && NoPoiWithId(sc, ls, x)
    ensures IndexOf(AddPois(ns, sc, ls), x).None?
    decreases |ls|
  {
    if |ls| > 0 {
      var init := ls[..|ls| - 1];
      assert forall j :: 0 <= j < |init| ==> init[j] == ls[j];
      PoisAbsent(ns, sc, init, x);
    }
  }

  /**
   * The first POI line with a given id decides that node: it holds the
   * line's name and coordinates and no edges; later lines with the same id
   * are dropped.
   */
  lemma {:induction false} PoiFirstWins(ns: seq<CityNode>, sc: Scanner, ls: seq<string>, k: nat, f: PoiFields)
    requires IndexOf(ns, Atoi(f.id)).None?
    requires k < |ls| && sc.poi(ls[k]) == Some(f)
    requires NoPoiWithId(sc, ls[..k], Atoi(f.id))
    ensures var r := AddPois(ns, sc, ls);
      && IndexOf(r, Atoi(f.id)).Some?
      && r[IndexOf(r, Atoi(f.id)).value] == Node(Atoi(f.id), Some(PoiData(Some(f.name), f.latitude, f.longitude)), [])
    decreases |ls|
  {
    var x := Atoi(f.id);
    var init := ls[..|ls| - 1];
    if k == |ls| - 1 {
      assert init == ls[..k];
      PoisAbsent(ns, sc, init, x);
      AddNodeEffect(AddPois(ns, sc, init), x, Some(PoiData(Some(f.name), f.latitude, f.longitude)));
    } else {
      assert init[..k] == ls[..k] && init[k] == ls[k];
      PoiFirstWins(ns, sc, init, k, f);
      var r0 := AddPois(ns, sc, init);
      var line := ls[|ls| - 1];
      if sc.poi(line).Some? {
        var g := sc.poi(line).value;
        AddNodeEffect(r0, Atoi(g.id), Some(PoiData(Some(g.name), g.latitude, g.longitude)));
      }
    }
  }

  /**
   * One road line, for a store with unique ids: both endpoints exist
   * afterwards; every node that existed keeps its slot and payload; an
   * unknown source is created as a nameless intersection at the line's
   * coordinates and an unknown destination without payload; and the from->to
   * edge is the one the store already had, else a new edge carrying the
   * line's distance (NaN read as 0) and road name.
   */
  lemma RoadStepEffect(ns: seq<CityNode>, sc: Scanner, line: string, f: RoadFields)
    requires sc.road(line) == Some(f)
    ensures var r := RoadStep(ns, sc, line);
      var from, to := Atoi(f.fromId), Atoi(f.toId);
      && IndexOf(r, from).Some? && IndexOf(r, to).Some?
      && (forall y :: IndexOf(ns, y).Some? ==>
            IndexOf(r, y) == IndexOf(ns, y) && r[IndexOf(r, y).value].data == ns[IndexOf(ns, y).value].data)
      && (IndexOf(ns, from).None? ==> r[IndexOf(r, from).value].data == Some(PoiData(None, f.latitude, f.longitude)))
      && (IndexOf(ns, to).None? && to != from ==> r[IndexOf(r, to).value].data == None)
      && FindEdge(r, from, to) ==
           if FindEdge(ns, from, to).Some? then FindEdge(ns, from, to)
           else Some(Edge(to, RoadWeight(f.distance), f.name))
  {
    var from, to := Atoi(f.fromId), Atoi(f.toId);
    var withFrom := AddNodeSpec(ns, from, Some(PoiData(None, f.latitude, f.longitude)));
    var withTo := AddNodeSpec(withFrom, to, None);
    var r := AddEdgeSpec(withTo, from, to, RoadWeight(f.distance), f.name);
    assert RoadStep(ns, sc, line) == r;
    AddNodeEffect(ns, from, Some(PoiData(None, f.latitude, f.longitude)));
    AddNodeEffect(withFrom, to, None);
    AddEdgeEffect(withTo, from, to, RoadWeight(f.distance), f.name);
    RoadStepEdge(ns, from, to, Some(PoiData(None, f.latitude, f.longitude)));
  }

  /** The two endpoint additions of a road line leave the pair's edge as it was, or absent. */
  lemma RoadStepEdge(ns: seq<CityNode>, from: int, to: int, d: Option<PoiData>)
    ensures FindEdge(AddNodeSpec(AddNodeSpec(ns, from, d), to, None), from, to) == FindEdge(ns, from, to)
  {
    AddNodeEffect(ns, from, d);
    AddNodeEffect(AddNodeSpec(ns, from, d), to, None);
  }


  // ---------------------------------------------------------------------------
  // The loader
  // ---------------------------------------------------------------------------

  /**
   * loadFileGraph: validate the file; on a failure give no graph and the
   * failing line number; otherwise read the file again and build the graph.
   */
  method LoadFileGraph(lines: seq<string>, sc: Scanner) returns (g: Graph?<Option<PoiData>, string>, err: nat)
    ensures err == 0 <==> Accepted(lines, sc)
    ensures err != 0 ==> g == null && LineFails(lines, sc, err)
    ensures err != 0 ==> forall L: nat :: L < err ==> !LineFails(lines, sc, L)
    ensures err == 0 ==> g != null && fresh(g) && g.Valid() && g.Nodes() == Build(lines, sc)
  {
    err := Validate(lines, sc);
    AcceptedIffNoLineFails(lines, sc);
    if err != 0 {
      return null, err;
    }
    g := new Graph<Option<PoiData>, string>();

    var numPoi := PositiveCount(sc, lines[0]).value;
    LoadPois(g, sc, lines[1..numPoi + 1]);
    var numRoads := PositiveCount(sc, lines[numPoi + 1]).value;
    LoadRoads(g, sc, lines[numPoi + 2..numPoi + numRoads + 2]);
  }

  /** The loader's POI loop over the POI lines of an accepted file. */
  method LoadPois(g: Graph<Option<PoiData>, string>, sc: Scanner, ls: seq<string>)
    requires g.Valid()
    modifies g, g.nodes
    ensures g.Valid() && (g.nodes == old(g.nodes) || fresh(g.nodes))
    ensures g.Nodes() == AddPois(old(g.Nodes()), sc, ls)
  {
    ghost var ns := g.Nodes();
    var i := 0;
    while i < |ls|
      invariant 0 <= i <= |ls|
      invariant g.Valid() && (g.nodes == old(g.nodes) || fresh(g.nodes))
      invariant g.Nodes() == AddPois(ns, sc, ls[..i])
    {
      AddPoisStep(ns, sc, ls, i);
      LoadPoiLine(g, sc, ls[i]);
      i := i + 1;
    }
    assert ls[..i] == ls;
  }

  /** The loader's road loop over the road lines of an accepted file. */
  method LoadRoads(g: Graph<Option<PoiData>, string>, sc: Scanner, ls: seq<string>)
    requires g.Valid()
    modifies g, g.nodes
    ensures g.Valid() && (g.nodes == old(g.nodes) || fresh(g.nodes))
    ensures g.Nodes() == AddRoads(old(g.Nodes()), sc, ls)
  {
    ghost var ns := g.Nodes();
    var i := 0;
    while i < |ls|
      invariant 0 <= i <= |ls|
      invariant g.Valid() && (g.nodes == old(g.nodes) || fresh(g.nodes))
      invariant g.Nodes() == AddRoads(ns, sc, ls[..i])
    {
      AddRoadsStep(ns, sc, ls, i);
      LoadRoadLine(g, sc, ls[i]);
      i := i + 1;
    }
    assert ls[..i] == ls;
  }

  /** The body of the loader's POI loop: add the POI unless the line does not scan or its id is taken. */
  method LoadPoiLine(g: Graph<Option<PoiData>, string>, sc: Scanner, line: string)
    requires g.Valid()
    modifies g, g.nodes
    ensures g.Valid() && (g.nodes == old(g.nodes) || fresh(g.nodes))
    ensures g.Nodes() == PoiStep(old(g.Nodes()), sc, line)
  {
    var poi := sc.poi(line);
    if poi.Some? {
      var f := poi.value;
      var id := Atoi(f.id);
      var added := g.AddNode(id, Some(PoiData(Some(f.name), f.latitude, f.longitude)));
    }
  }

  /**
   * The body of the loader's road loop: NaN distance to 0, create missing
   * endpoints, then add the edge.
   */
  method LoadRoadLine(g: Graph<Option<PoiData>, string>, sc: Scanner, line: string)
    requires g.Valid()
    modifies g, g.nodes
    ensures g.Valid() && (g.nodes == old(g.nodes) || fresh(g.nodes))
    ensures g.Nodes() == RoadStep(old(g.Nodes()), sc, line)
  {
    var road := sc.road(line);
    if road.Some? {
      var f := road.value;
      var distance := if f.distance.NaN? then 0.0 else f.distance.value;
      var from := Atoi(f.fromId);
      var to := Atoi(f.toId);
      var fromNode := g.GetNode(from);
      if fromNode.None? {
        var _ := g.AddNode(from, Some(PoiData(None, f.latitude, f.longitude)));
      }
      var toNode := g.GetNode(to);
      if toNode.None? {
        var _ := g.AddNode(to, None);
      }
      var _ := g.AddEdge(from, to, distance, f.name);
    }
  }

  // ---------------------------------------------------------------------------
  // Dijkstra over the store
  // ---------------------------------------------------------------------------

  /**
   * dijkstra: -1 for an empty graph, an unknown id or an unreachable
   * destination, otherwise the distance the algorithm computes.
   */
  method Dijkstra<N(0), E(0)>(g: Graph<N, E>, startId: int, endId: int) returns (r: real)
    requires g.Valid()
    ensures r == match SP.Dijkstra(g.Nodes(), startId, endId) case None => -1.0 case Some(d) => d
  {
    ghost var ns := g.Nodes();
    var n := g.nodeCount;
    if n == 0 {
      return -1.0;
    }
    var distances := new SP.Ext[n](_ => SP.Inf);
    var visited := new bool[n](_ => false);

    var start := g.FindNode(startId);
    if start.None? {
      return -1.0;
    }
    distances[start.value] := SP.Fin(0.0);
    ghost var D0, V0 := distances[..], visited[..];
    assert D0 == SP.Initial(n, start.value) && V0 == SP.NoneVisited(n);
    SP.CountTrueNone(n);

    RunRounds(g, distances, visited, endId);

    var end := g.FindNode(endId);
    var result := SP.Inf;
    if end.Some? {
      result := distances[end.value];
    }
    r := if result.Inf? then -1.0 else result.value;
  }

  /** The main loop of dijkstra: at most one round per node, stopping early as Run does. */
  method RunRounds<N(0), E(0)>(g: Graph<N, E>, distances: array<SP.Ext>, visited: array<bool>, endId: int)
    requires g.Valid() && distances.Length == visited.Length == g.nodeCount
    requires SP.CountTrue(visited[..]) == 0
    modifies distances, visited
    ensures distances[..] == SP.Run(g.Nodes(), endId, old(distances[..]), old(visited[..]), 0)
  {
    ghost var ns := g.Nodes();
    var n := g.nodeCount;
    var count := 0;
    while count < n
      invariant 0 <= count <= n
      invariant SP.CountTrue(visited[..]) == count
      invariant SP.Run(ns, endId, distances[..], visited[..], count) == SP.Run(ns, endId, old(distances[..]), old(visited[..]), 0)
      invariant count == n ==> SP.Run(ns, endId, distances[..], visited[..], count) == distances[..]
    {
      var done := Round(g, distances, visited, endId, count);
      if done {
        break;
      }
      count := count + 1;
    }
  }

  /**
   * One round of the main loop: select, mark visited, stop at the
   * destination, or relax. `done` is true when the loop stops here.
   */
  method Round<N(0), E(0)>(g: Graph<N, E>, distances: array<SP.Ext>, visited: array<bool>, endId: int, count: nat)
    returns (done: bool)
    requires g.Valid() && distances.Length == visited.Length == g.nodeCount
    requires count < g.nodeCount && SP.CountTrue(visited[..]) == count
    modifies distances, visited
    ensures done ==> distances[..] == old(distances[..])
    ensures done ==> SP.Run(g.Nodes(), endId, old(distances[..]), old(visited[..]), count) == distances[..]
    ensures !done ==> SP.CountTrue(visited[..]) == count + 1
    ensures !done ==> SP.Run(g.Nodes(), endId, old(distances[..]), old(visited[..]), count)
                      == SP.Run(g.Nodes(), endId, distances[..], visited[..], count + 1)
  {
    ghost var ns := g.Nodes();
    var minIdx := SelectMin(distances, visited);
    if minIdx == -1 {
      return true;
    }

    SP.CountTrueSet(visited[..], minIdx);
    visited[minIdx] := true;
    assert visited[..] == old(visited[..])[minIdx := true];
    if g.nodes[minIdx].id == endId {
      return true;
    }

    Relax(g, distances, visited, minIdx);
    assert SP.Run(ns, endId, old(distances[..]), old(visited[..]), count) == SP.Run(ns, endId, distances[..], visited[..], count + 1);
    return false;
  }

  /** The selection scan of dijkstra: the first unvisited slot of least finite distance, or -1. */
  method SelectMin(distances: array<SP.Ext>, visited: array<bool>) returns (minIdx: int)
    requires distances.Length == visited.Length
    ensures SP.MinUpTo(distances[..], visited[..], distances.Length) == if minIdx < 0 then None else Some(minIdx)
    ensures -1 <= minIdx < distances.Length
  {
    var n := distances.Length;
    var minDist := SP.Inf;
    minIdx := -1;
    var i := 0;
    while i < n
      invariant 0 <= i <= n && -1 <= minIdx < i
      invariant SP.MinUpTo(distances[..], visited[..], i) == if minIdx < 0 then None else Some(minIdx)
      invariant minDist == if minIdx < 0 then SP.Inf else distances[minIdx]
    {
      if !visited[i] && SP.Less(distances[i], minDist) {
        minDist := distances[i];
        minIdx := i;
      }
      i := i + 1;
    }
  }

  /** The relaxation loop of dijkstra over the edges of the node in slot u, which is visited. */
  method Relax<N(0), E(0)>(g: Graph<N, E>, distances: array<SP.Ext>, visited: array<bool>, u: nat)
    requires g.Valid() && distances.Length == visited.Length == g.nodeCount
    requires u < g.nodeCount && visited[u] && distances[u].Fin?
    modifies distances
    ensures distances[..] == SP.RelaxEdges(g.Nodes(), old(distances[..]), visited[..], old(distances[u]).value, g.nodes[u].edges)
  {
    ghost var ns := g.Nodes();
    ghost var D := distances[..];
    ghost var du := distances[u].value;
    var es := g.nodes[u].edges;
    var k := 0;
    while k < |es|
      invariant 0 <= k <= |es|
      invariant distances[..] == SP.RelaxEdges(ns, D, visited[..], du, es[..k])
      invariant distances[u] == SP.Fin(du)
    {
      assert es[..k + 1][..k] == es[..k] && es[..k + 1][k] == es[k];
      var neighbor := g.FindNode(es[k].to);
      if neighbor.Some? && !visited[neighbor.value] {
        var alt := distances[u].value + es[k].weight;
        if SP.Less(SP.Fin(alt), distances[neighbor.value]) {
          distances[neighbor.value] := SP.Fin(alt);
        }
      }
      k := k + 1;
    }
    assert es[..k] == es;
  }

  // ---------------------------------------------------------------------------
  // Name queries
  // ---------------------------------------------------------------------------

  /** A node that is a POI: it has a payload and the payload has a name. */
  predicate IsPoi(n: CityNode)
  {
    n.data.Some? && n.data.value.name.Some?
  }

  predicate HasName(n: CityNode, name: string)
  {
    IsPoi(n) && n.data.value.name.value == name
  }

  /** The first slot whose node is a POI with this name, or None. */
  function FirstNamed(ns: seq<CityNode>, name: string): (r: Option<nat>)
    ensures r.Some? ==> r.value < |ns| && HasName(ns[r.value], name)
    ensures r.Some? ==> forall j :: 0 <= j < r.value ==> !HasName(ns[j], name)
    ensures r.None? ==> forall j :: 0 <= j < |ns| ==> !HasName(ns[j], name)
  {
    if |ns| == 0 then None
    else if HasName(ns[0], name) then Some(0)
    else match FirstNamed(ns[1..], name)
      case None => None
      case Some(k) => Some(k + 1)
  }

  /** findNodeByName: the first node in slot order that is a POI with this name. */
  method FindNodeByName(g: Graph<Option<PoiData>, string>, name: string) returns (r: Option<CityNode>)
    requires g.Valid()
    ensures r.None? <==> FirstNamed(g.Nodes(), name).None?
    ensures r.Some? ==> r.value == g.Nodes()[FirstNamed(g.Nodes(), name).value]
  {
    var i := 0;
    while i < g.nodeCount
      invariant 0 <= i <= g.nodeCount
      invariant forall j :: 0 <= j < i ==> !HasName(g.nodes[j], name)
    {
      var node := g.nodes[i];
      if node.data.Some? {
        var poi := node.data.value;
        if poi.name.Some? && poi.name.value == name {
          assert FirstNamed(g.Nodes(), name) == Some(i) by {
            assert HasName(g.Nodes()[i], name);
          }
          return Some(node);
        }
      }
      i := i + 1;
    }
    return None;
  }

  /** The great-circle distance of two coordinate pairs, as a double (NaN in, NaN out). */
  type Haversine = (Double, Double, Double, Double) -> Double

  /** `d > m` in IEEE arithmetic. */
  predicate Gt(d: Double, m: real)
  {
    d.Finite? && d.value > m
  }

  /** Slots a < b that both hold POIs: the pairs the diameter search compares. */
  predicate Candidate(ns: seq<CityNode>, a: int, b: int)
  {
    0 <= a < b < |ns| && IsPoi(ns[a]) && IsPoi(ns[b])
  }

  function PairDistance(ns: seq<CityNode>, h: Haversine, a: nat, b: nat): Double
    requires Candidate(ns, a, b)
  {
    var p, q := ns[a].data.value, ns[b].data.value;
    h(p.latitude, p.longitude, q.latitude, q.longitude)
  }

  /** Pair (a, b) comes before pair (i, j) in the search's row-by-row order. */
  predicate Before(a: int, b: int, i: int, j: int)
  {
    a < i || (a == i && b < j)
  }

  /**
   * The result of the diameter search over the pairs before (i, j): None with
   * maximum 0 when none of them is farther apart than 0, otherwise the first
   * pair whose distance is the largest, which is positive.
   */
  ghost predicate DiameterSoFar(ns: seq<CityNode>, h: Haversine, i: int, j: int, best: Option<(nat, nat)>, maxDistance: real)
  {
    && (best.None? ==>
          && maxDistance == 0.0
          && forall a, b :: Candidate(ns, a, b) && Before(a, b, i, j) ==> !Gt(PairDistance(ns, h, a, b), 0.0))
    && (best.Some? ==>
          && Candidate(ns, best.value.0, best.value.1) && Before(best.value.0, best.value.1, i, j)
          && PairDistance(ns, h, best.value.0, best.value.1) == Finite(maxDistance)
          && maxDistance > 0.0
          && (forall a, b :: Candidate(ns, a, b) && Before(a, b, i, j) ==> !Gt(PairDistance(ns, h, a, b), maxDistance))
          && (forall a, b :: Candidate(ns, a, b) && Before(a, b, best.value.0, best.value.1) ==>
                PairDistance(ns, h, a, b) != Finite(maxDistance)))
  }

  /**
   * findDiameter: compare every pair of POIs i < j in row-by-row order and
   * keep a pair only when it is strictly farther apart than the best so far.
   */
  method FindDiameter(g: Graph<Option<PoiData>, string>, h: Haversine) returns (best: Option<(nat, nat)>, maxDistance: real)
    requires g.Valid()
    ensures DiameterSoFar(g.Nodes(), h, g.nodeCount, 0, best, maxDistance)
  {
    ghost var ns := g.Nodes();
    var n := g.nodeCount;
    maxDistance := 0.0;
    best := None;
    var i := 0;
    while i < n
      invariant 0 <= i <= n
      invariant DiameterSoFar(ns, h, i, 0, best, maxDistance)
    {
      var node1 := g.nodes[i];
      if node1.data.Some? && node1.data.value.name.Some? {
        RowStart(ns, h, i, best, maxDistance);
        best, maxDistance := ScanRow(g, h, i, best, maxDistance);
        RowEnd(ns, h, i, best, maxDistance);
      } else {
        RowPassed(ns, h, i, best, maxDistance);
      }
      i := i + 1;
    }
  }

  /** The inner loop of findDiameter: the pairs (i, j) for j after i, with node i a POI. */
  method ScanRow(g: Graph<Option<PoiData>, string>, h: Haversine, i: nat, best0: Option<(nat, nat)>, max0: real)
    returns (best: Option<(nat, nat)>, maxDistance: real)
    requires g.Valid() && i < g.nodeCount && IsPoi(g.nodes[i])
    requires DiameterSoFar(g.Nodes(), h, i, i + 1, best0, max0)
    ensures DiameterSoFar(g.Nodes(), h, i, g.nodeCount, best, maxDistance)
  {
    ghost var ns := g.Nodes();
    var n := g.nodeCount;
    best, maxDistance := best0, max0;
    var node1 := g.nodes[i];
    var poi1 := node1.data.value;
    var j := i + 1;
    while j < n
      invariant i + 1 <= j <= n
      invariant DiameterSoFar(ns, h, i, j, best, maxDistance)
    {
      var node2 := g.nodes[j];
      if node2.data.Some? && node2.data.value.name.Some? {
        var poi2 := node2.data.value;
        var dist := h(poi1.latitude, poi1.longitude, poi2.latitude, poi2.longitude);
        assert Candidate(ns, i, j) && dist == PairDistance(ns, h, i, j);
        if Gt(dist, maxDistance) {
          PairKept(ns, h, i, j, best, maxDistance);
          maxDistance := dist.value;
          best := Some((i, j));
        } else {
          PairPassed(ns, h, i, j, best, maxDistance);
        }
      } else {
        PairPassed(ns, h, i, j, best, maxDistance);
      }
      j := j + 1;
    }
  }

  /** Within row i, the pairs before (i, 0) and before (i, i + 1) are the same. */
  lemma RowStart(ns: seq<CityNode>, h: Haversine, i: nat, best: Option<(nat, nat)>, m: real)
    requires DiameterSoFar(ns, h, i, 0, best, m)
    ensures DiameterSoFar(ns, h, i, i + 1, best, m)
  {
  }

  /** Having passed every pair of row i, the search stands at the start of row i + 1. */
  lemma RowEnd(ns: seq<CityNode>, h: Haversine, i: nat, best: Option<(nat, nat)>, m: real)
    requires DiameterSoFar(ns, h, i, |ns|, best, m)
    ensures DiameterSoFar(ns, h, i + 1, 0, best, m)
  {
  }

  /** A row whose node is not a POI holds no candidate pair. */
  lemma RowPassed(ns: seq<CityNode>, h: Haversine, i: nat, best: Option<(nat, nat)>, m: real)
    requires i < |ns| && !IsPoi(ns[i])
    requires DiameterSoFar(ns, h, i, 0, best, m)
    ensures DiameterSoFar(ns, h, i + 1, 0, best, m)
  {
  }

  /** A pair that is not a candidate, or not strictly farther than m, leaves the result alone. */
  lemma PairPassed(ns: seq<CityNode>, h: Haversine, i: nat, j: nat, best: Option<(nat, nat)>, m: real)
    requires DiameterSoFar(ns, h, i, j, best, m)
    requires Candidate(ns, i, j) ==> !Gt(PairDistance(ns, h, i, j), m)
    ensures DiameterSoFar(ns, h, i, j + 1, best, m)
  {
  }

  /** A candidate pair strictly farther than m becomes the result. */
  lemma PairKept(ns: seq<CityNode>, h: Haversine, i: nat, j: nat, best: Option<(nat, nat)>, m: real)
    requires DiameterSoFar(ns, h, i, j, best, m)
    requires Candidate(ns, i, j) && Gt(PairDistance(ns, h, i, j), m)
    ensures DiameterSoFar(ns, h, i, j + 1, Some((i, j)), PairDistance(ns, h, i, j).value)
  {
  }

  // ---------------------------------------------------------------------------
  // Road distance between two named places
  // ---------------------------------------------------------------------------

  /** What roadDistance reports. */
  datatype RoadResult = NotFound | NoPath | Distance(d: real)

  /** The report for two names: a missing name, a negative dijkstra result, or the distance. */
  function RoadDistanceSpec(ns: seq<CityNode>, name1: string, name2: string): RoadResult
  {
    match (FirstNamed(ns, name1), FirstNamed(ns, name2))
    case (Some(i), Some(j)) =>
      var d := match SP.Dijkstra(ns, ns[i].id, ns[j].id) case None => -1.0 case Some(d) => d;
      if d < 0.0 then NoPath else Distance(d)
    case _ => NotFound
  }

  /** roadDistance: look both names up, run dijkstra, and report. */
  method RoadDistance(g: Graph<Option<PoiData>, string>, name1: string, name2: string) returns (r: RoadResult)
    requires g.Valid()
    ensures r == RoadDistanceSpec(g.Nodes(), name1, name2)
  {
    var node1 := FindNodeByName(g, name1);
    var node2 := FindNodeByName(g, name2);
    if node1.None? || node2.None? {
      return NotFound;
    }
    var distance := Dijkstra(g, node1.value.id, node2.value.id);
    if distance < 0.0 {
      return NoPath;
    }
    return Distance(distance);
  }

  /**
   * What roadDistance reports, for a store with unique ids and non-negative
   * road lengths: "not found" exactly when a name is missing; otherwise "no
   * path" exactly when no road path leads from the first place to the second,
   * and a distance only as the length of a shortest such path.
   */
  lemma RoadDistanceCorrect(ns: seq<CityNode>, name1: string, name2: string)
    requires UniqueIds(ns) && SP.NonNegWeights(ns)
    ensures var r := RoadDistanceSpec(ns, name1, name2);
      && (r.NotFound? <==> FirstNamed(ns, name1).None? || FirstNamed(ns, name2).None?)
      && (FirstNamed(ns, name1).Some? && FirstNamed(ns, name2).Some? ==>
            var i, j := FirstNamed(ns, name1).value, FirstNamed(ns, name2).value;
            && (r.NoPath? <==> !SP.Reachable(ns, i, j))
            && (r.Distance? ==> SP.IsShortest(ns, i, j, r.d)))
  {
    if FirstNamed(ns, name1).Some? && FirstNamed(ns, name2).Some? {
      var i, j := FirstNamed(ns, name1).value, FirstNamed(ns, name2).value;
      IndexOfUnique(ns, i);
      IndexOfUnique(ns, j);
      SP.DijkstraCorrect(ns, ns[i].id, ns[j].id);
      var d := SP.Dijkstra(ns, ns[i].id, ns[j].id);
      if d.Some? {
        var p :| SP.IsPath(ns, i, j, p) && SP.PathWeight(ns, p) == d.value;
        SP.PathWeightNonNeg(ns, p);
      }
    }
  }
}
