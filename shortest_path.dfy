/**
 * Dijkstra's algorithm as the city-map program runs it, stated as a function
 * of the node sequence of a graph, and the proof that it finds shortest
 * paths.
 *
 * The algorithm keeps a tentative distance per slot (Inf stands for the
 * DBL_MAX sentinel) and a visited flag per slot. Each round picks the
 * unvisited slot with the smallest finite distance (the first one on a tie),
 * marks it visited, stops if it holds the destination id, and otherwise
 * relaxes its outgoing edges in list order towards unvisited neighbours. The
 * main loop runs at most once per node.
 */
module ShortestPath {
  import opened Wrappers
  import opened GraphStore

  /** A tentative distance: a finite value or the "not reached" sentinel. */
  datatype Ext = Fin(value: real) | Inf

  /** `a < b` on tentative distances; the sentinel is above every finite value. */
  predicate Less(a: Ext, b: Ext)
  {
    match a
    case Inf => false
    case Fin(x) => b.Inf? || x < b.value
  }

  // ---------------------------------------------------------------------------
  // One round
  // ---------------------------------------------------------------------------

  /**
   * The selection scan over slots 0..k-1: starting from the sentinel, a slot
   * replaces the candidate when it is unvisited and strictly smaller. The
   * result is the first unvisited slot of least finite distance.
   */
  function MinUpTo(D: seq<Ext>, V: seq<bool>, k: nat): (r: Option<nat>)
    requires |D| == |V| && k <= |D|
    ensures r.Some? ==> r.value < k && !V[r.value] && D[r.value].Fin?
    ensures r.Some? ==> forall j :: 0 <= j < k && !V[j] ==> !Less(D[j], D[r.value])
    ensures r.Some? ==> forall j :: 0 <= j < r.value && !V[j] ==> Less(D[r.value], D[j])
    ensures r.None? ==> forall j :: 0 <= j < k && !V[j] ==> D[j].Inf?
  {
    if k == 0 then None
    else
      var b := MinUpTo(D, V, k - 1);
      var best := if b.Some? then D[b.value] else Inf;
      if !V[k - 1] && Less(D[k - 1], best) then Some(k - 1) else b
  }

  /** Relax one edge of the selected node, whose distance is du. */
  function RelaxOne<N, E>(ns: seq<Node<N, E>>, D: seq<Ext>, V: seq<bool>, du: real, e: Edge<E>): seq<Ext>
    requires |D| == |ns| == |V|
  {
    match IndexOf(ns, e.to)
    case None => D
    case Some(j) => if !V[j] && Less(Fin(du + e.weight), D[j]) then D[j := Fin(du + e.weight)] else D
  }

  /** Relax a list of edges from its head to its tail. */
  function RelaxEdges<N, E>(ns: seq<Node<N, E>>, D: seq<Ext>, V: seq<bool>, du: real, es: seq<Edge<E>>): (r: seq<Ext>)
    requires |D| == |ns| == |V|
    ensures |r| == |D|
  {
    if |es| == 0 then D
    else RelaxOne(ns, RelaxEdges(ns, D, V, du, es[..|es| - 1]), V, du, es[|es| - 1])
  }

  /** The main loop, from the state (D, V) after `count` rounds. */
  function Run<N, E>(ns: seq<Node<N, E>>, endId: int, D: seq<Ext>, V: seq<bool>, count: nat): (r: seq<Ext>)
    requires |D| == |ns| == |V|
    ensures |r| == |ns|
    decreases |ns| - count
  {
    if count >= |ns| then D
    else match MinUpTo(D, V, |D|)
      case None => D
      case Some(u) =>
        if ns[u].id == endId then D
        else
          var V' := V[u := true];
          Run(ns, endId, RelaxEdges(ns, D, V', D[u].value, ns[u].edges), V', count + 1)
  }

  /** Every distance at the sentinel except the start's, which is 0. */
  function Initial(n: nat, si: nat): seq<Ext>
  {
    seq(n, i => if i == si then Fin(0.0) else Inf)
  }

  function NoneVisited(n: nat): seq<bool>
  {
    seq(n, i => false)
  }

  /**
   * dijkstra: the distance it computes from the node with id startId to the
   * node with id endId, or None where the C code returns -1 (an empty graph,
   * an unknown id, or a destination left at the sentinel).
   */
  function Dijkstra<N, E>(ns: seq<Node<N, E>>, startId: int, endId: int): Option<real>
  {
    if |ns| == 0 then None
    else match IndexOf(ns, startId)
      case None => None
      case Some(si) =>
        var D := Run(ns, endId, Initial(|ns|, si), NoneVisited(|ns|), 0);
        match IndexOf(ns, endId)
        case None => None
        case Some(ti) => if D[ti].Inf? then None else Some(D[ti].value)
  }

  // ---------------------------------------------------------------------------
  // Paths
  // ---------------------------------------------------------------------------

  /** One step of a path: edge number `slot` of the node in slot `from`. */
  datatype Hop = Hop(from: nat, slot: nat)

  /** p leads from slot s to slot t along edges of the graph. */
  ghost predicate IsPath<N, E>(ns: seq<Node<N, E>>, s: nat, t: nat, p: seq<Hop>)
    decreases |p|
  {
    if |p| == 0 then s == t
    else
      var h := p[|p| - 1];
      && h.from < |ns| && h.slot < |ns[h.from].edges|
      && IndexOf(ns, ns[h.from].edges[h.slot].to) == Some(t)
      && IsPath(ns, s, h.from, p[..|p| - 1])
  }

  ghost function HopWeight<N, E>(ns: seq<Node<N, E>>, h: Hop): real
  {
    if h.from < |ns| && h.slot < |ns[h.from].edges| then ns[h.from].edges[h.slot].weight else 0.0
  }

  ghost function PathWeight<N, E>(ns: seq<Node<N, E>>, p: seq<Hop>): real
  {
    if |p| == 0 then 0.0 else PathWeight(ns, p[..|p| - 1]) + HopWeight(ns, p[|p| - 1])
  }

  ghost predicate Reachable<N, E>(ns: seq<Node<N, E>>, s: nat, t: nat)
  {
    exists p :: IsPath(ns, s, t, p)
  }

  /** d is the weight of some path from s to t and no path from s to t weighs less. */
  ghost predicate IsShortest<N, E>(ns: seq<Node<N, E>>, s: nat, t: nat, d: real)
  {
    && (exists p :: IsPath(ns, s, t, p) && PathWeight(ns, p) == d)
    && (forall p :: IsPath(ns, s, t, p) ==> d <= PathWeight(ns, p))
  }

  ghost predicate NonNegWeights<N, E>(ns: seq<Node<N, E>>)
  {
    forall i, k :: 0 <= i < |ns| && 0 <= k < |ns[i].edges| ==> ns[i].edges[k].weight >= 0.0
  }

  lemma {:induction false} PathWeightNonNeg<N, E>(ns: seq<Node<N, E>>, p: seq<Hop>)
    requires NonNegWeights(ns)
    ensures PathWeight(ns, p) >= 0.0
    decreases |p|
  {
    if |p| > 0 {
      PathWeightNonNeg(ns, p[..|p| - 1]);
    }
  }

  lemma PathExtend<N, E>(ns: seq<Node<N, E>>, s: nat, u: nat, p: seq<Hop>, k: nat, j: nat)
    requires IsPath(ns, s, u, p)
    requires u < |ns| && k < |ns[u].edges| && IndexOf(ns, ns[u].edges[k].to) == Some(j)
    ensures IsPath(ns, s, j, p + [Hop(u, k)])
    ensures PathWeight(ns, p + [Hop(u, k)]) == PathWeight(ns, p) + ns[u].edges[k].weight
  {
    assert (p + [Hop(u, k)])[..|p|] == p;
  }

  // ---------------------------------------------------------------------------
  // Counting visited slots
  // ---------------------------------------------------------------------------

  function CountTrue(V: seq<bool>): nat
  {
    if |V| == 0 then 0 else CountTrue(V[..|V| - 1]) + (if V[|V| - 1] then 1 else 0)
  }

  lemma {:induction false} CountTrueSet(V: seq<bool>, u: nat)
    requires u < |V| && !V[u]
    ensures CountTrue(V[u := true]) == CountTrue(V) + 1
    decreases |V|
  {
    var W := V[u := true];
    if u < |V| - 1 {
      assert W[..|W| - 1] == V[..|V| - 1][u := true];
      CountTrueSet(V[..|V| - 1], u);
    } else {
      assert W[..|W| - 1] == V[..|V| - 1];
    }
  }

  lemma {:induction false} CountTrueBelow(V: seq<bool>, t: nat)
    requires t < |V| && !V[t]
    ensures CountTrue(V) < |V|
    decreases |V|
  {
    if t < |V| - 1 {
      CountTrueBelow(V[..|V| - 1], t);
    } else {
      CountTrueAtMost(V[..|V| - 1]);
    }
  }

  lemma {:induction false} CountTrueAtMost(V: seq<bool>)
    ensures CountTrue(V) <= |V|
    decreases |V|
  {
    if |V| > 0 {
      CountTrueAtMost(V[..|V| - 1]);
    }
  }

  lemma {:induction false} CountTrueNone(n: nat)
    ensures CountTrue(NoneVisited(n)) == 0
    decreases n
  {
    if n > 0 {
      assert NoneVisited(n)[..n - 1] == NoneVisited(n - 1);
      CountTrueNone(n - 1);
    }
  }

  // ---------------------------------------------------------------------------
  // The loop invariant
  // ---------------------------------------------------------------------------

  /** A finite distance in slot i is the weight of a path from the start. */
  ghost predicate HasPath<N, E>(ns: seq<Node<N, E>>, si: nat, D: seq<Ext>, i: nat)
    requires i < |D|
  {
    D[i].Fin? ==> exists p :: IsPath(ns, si, i, p) && PathWeight(ns, p) == D[i].value
  }

  ghost predicate Sound<N, E>(ns: seq<Node<N, E>>, si: nat, D: seq<Ext>)
  {
    forall i :: 0 <= i < |D| ==> HasPath(ns, si, D, i)
  }

  /** A visited slot holds its shortest distance. */
  ghost predicate Settled<N, E>(ns: seq<Node<N, E>>, si: nat, D: seq<Ext>, V: seq<bool>)
    requires |D| == |V|
  {
    forall i :: 0 <= i < |D| && V[i] ==>
      D[i].Fin? && forall p :: IsPath(ns, si, i, p) ==> D[i].value <= PathWeight(ns, p)
  }

  /** Every edge from a visited slot to an unvisited one has been relaxed. */
  ghost predicate Relaxed<N, E>(ns: seq<Node<N, E>>, D: seq<Ext>, V: seq<bool>)
    requires |D| == |ns| == |V|
  {
    forall a, k :: (0 <= a < |ns| && V[a] && 0 <= k < |ns[a].edges| &&
      IndexOf(ns, ns[a].edges[k].to).Some? && !V[IndexOf(ns, ns[a].edges[k].to).value]) ==>
      D[a].Fin? && !Less(Fin(D[a].value + ns[a].edges[k].weight), D[IndexOf(ns, ns[a].edges[k].to).value])
  }

  ghost predicate Inv<N, E>(ns: seq<Node<N, E>>, si: nat, ti: nat, D: seq<Ext>, V: seq<bool>, count: nat)
  {
    && |D| == |ns| == |V| && si < |ns| && ti < |ns|
    && CountTrue(V) == count
    && !V[ti]
    && (count == 0 ==> D == Initial(|ns|, si) && V == NoneVisited(|ns|))
    && (count > 0 ==> V[si])
    && Sound(ns, si, D)
    && Settled(ns, si, D, V)
    && Relaxed(ns, D, V)
  }

  // ---------------------------------------------------------------------------
  // Why a round keeps the invariant
  // ---------------------------------------------------------------------------

  /** The first round selects the start, the only slot with a finite distance. */
  lemma FirstRoundPicksStart(n: nat, si: nat)
    requires si < n
    ensures MinUpTo(Initial(n, si), NoneVisited(n), n) == Some(si)
  {
    assert Initial(n, si)[si] == Fin(0.0) && !NoneVisited(n)[si];
    assert forall j :: 0 <= j < n && j != si ==> Initial(n, si)[j] == Inf;
  }

  /**
   * Relaxing a list: visited slots keep their distance, no distance grows, a
   * distance that changed is du plus the weight of an edge of the list into
   * that slot, and every edge of the list into an unvisited slot ends up
   * relaxed.
   */
  lemma {:induction false} RelaxEffect<N, E>(ns: seq<Node<N, E>>, D: seq<Ext>, V: seq<bool>, du: real, es: seq<Edge<E>>)
    requires |D| == |ns| == |V|
    ensures var r := RelaxEdges(ns, D, V, du, es);
      && (forall i :: 0 <= i < |r| && V[i] ==> r[i] == D[i])
      && (forall i :: 0 <= i < |r| ==> !Less(D[i], r[i]))
      && (forall i :: 0 <= i < |r| && r[i] != D[i] ==>
            exists k :: 0 <= k < |es| && IndexOf(ns, es[k].to) == Some(i) && r[i] == Fin(du + es[k].weight))
      && (forall k :: 0 <= k < |es| && IndexOf(ns, es[k].to).Some? && !V[IndexOf(ns, es[k].to).value] ==>
            !Less(Fin(du + es[k].weight), r[IndexOf(ns, es[k].to).value]))
    decreases |es|
  {
    if |es| > 0 {
      var init := es[..|es| - 1];
      var e := es[|es| - 1];
      RelaxEffect(ns, D, V, du, init);
      var r0 := RelaxEdges(ns, D, V, du, init);
      var r := RelaxOne(ns, r0, V, du, e);
      forall i | 0 <= i < |r| && r[i] != D[i]
        ensures exists k :: 0 <= k < |es| && IndexOf(ns, es[k].to) == Some(i) && r[i] == Fin(du + es[k].weight)
      {
        if r[i] != r0[i] {
          assert IndexOf(ns, es[|es| - 1].to) == Some(i);
        } else {
          var k :| 0 <= k < |init| && IndexOf(ns, init[k].to) == Some(i) && r0[i] == Fin(du + init[k].weight);
          assert es[k] == init[k];
        }
      }
      forall k | 0 <= k < |es| && IndexOf(ns, es[k].to).Some? && !V[IndexOf(ns, es[k].to).value]
        ensures !Less(Fin(du + es[k].weight), r[IndexOf(ns, es[k].to).value])
      {
        if k < |init| {
          assert es[k] == init[k];
        }
      }
    }
  }

  /**
   * A path into an unvisited slot leaves the visited set somewhere: some
   * unvisited slot b already has a finite distance no greater than the
   * path's weight.
   */
  lemma {:induction false} Frontier<N, E>(ns: seq<Node<N, E>>, si: nat, D: seq<Ext>, V: seq<bool>, x: nat, p: seq<Hop>)
      returns (b: nat)
    requires |D| == |ns| == |V| && si < |ns| && x < |ns|
    requires NonNegWeights(ns) && Settled(ns, si, D, V) && Relaxed(ns, D, V)
    requires V[si] && !V[x] && IsPath(ns, si, x, p)
    ensures b < |ns| && !V[b] && D[b].Fin? && D[b].value <= PathWeight(ns, p)
    decreases |p|
  {
    var h := p[|p| - 1];
    var prefix := p[..|p| - 1];
    var a := h.from;
    var w := ns[a].edges[h.slot].weight;
    assert w >= 0.0;
    if V[a] {
      b := x;
      assert D[a].value <= PathWeight(ns, prefix);
    } else {
      b := Frontier(ns, si, D, V, a, prefix);
    }
  }

  /** The slot a round selects already holds its shortest distance. */
  lemma SelectSettles<N, E>(ns: seq<Node<N, E>>, si: nat, ti: nat, D: seq<Ext>, V: seq<bool>, count: nat, u: nat)
    requires Inv(ns, si, ti, D, V, count) && NonNegWeights(ns)
    requires MinUpTo(D, V, |D|) == Some(u)
    ensures forall p :: IsPath(ns, si, u, p) ==> D[u].value <= PathWeight(ns, p)
  {
    forall p | IsPath(ns, si, u, p) ensures D[u].value <= PathWeight(ns, p) {
      if count == 0 {
        FirstRoundPicksStart(|ns|, si);
        PathWeightNonNeg(ns, p);
      } else {
        var b := Frontier(ns, si, D, V, u, p);
      }
    }
  }

  lemma SoundAfterRound<N, E>(ns: seq<Node<N, E>>, si: nat, D: seq<Ext>, V': seq<bool>, u: nat)
    requires |D| == |ns| == |V'| && u < |ns| && V'[u] && D[u].Fin?
    requires Sound(ns, si, D)
    ensures Sound(ns, si, RelaxEdges(ns, D, V', D[u].value, ns[u].edges))
  {
    var du := D[u].value;
    var es := ns[u].edges;
    var D' := RelaxEdges(ns, D, V', du, es);
    RelaxEffect(ns, D, V', du, es);
    assert HasPath(ns, si, D, u);
    forall i | 0 <= i < |D'|
      ensures HasPath(ns, si, D', i)
    {
      if D'[i] == D[i] {
        assert HasPath(ns, si, D, i);
      } else {
        var k :| 0 <= k < |es| && IndexOf(ns, es[k].to) == Some(i) && D'[i] == Fin(du + es[k].weight);
        var pu :| IsPath(ns, si, u, pu) && PathWeight(ns, pu) == du;
        PathExtend(ns, si, u, pu, k, i);
      }
    }
  }

  lemma RelaxedAfterRound<N, E>(ns: seq<Node<N, E>>, D: seq<Ext>, V: seq<bool>, u: nat)
    requires |D| == |ns| == |V| && u < |ns| && D[u].Fin?
    requires Relaxed(ns, D, V)
    ensures var V' := V[u := true];
      Relaxed(ns, RelaxEdges(ns, D, V', D[u].value, ns[u].edges), V')
  {
    var V' := V[u := true];
    var D' := RelaxEdges(ns, D, V', D[u].value, ns[u].edges);
    RelaxEffect(ns, D, V', D[u].value, ns[u].edges);
    forall a, k | (0 <= a < |ns| && V'[a] && 0 <= k < |ns[a].edges| &&
      IndexOf(ns, ns[a].edges[k].to).Some? && !V'[IndexOf(ns, ns[a].edges[k].to).value])
      ensures D'[a].Fin? && !Less(Fin(D'[a].value + ns[a].edges[k].weight), D'[IndexOf(ns, ns[a].edges[k].to).value])
    {
      var b := IndexOf(ns, ns[a].edges[k].to).value;
      if a != u {
        assert !Less(Fin(D[a].value + ns[a].edges[k].weight), D[b]);
        assert !Less(D[b], D'[b]);
      }
    }
  }

  lemma RoundPreserves<N, E>(ns: seq<Node<N, E>>, si: nat, ti: nat, D: seq<Ext>, V: seq<bool>, count: nat, u: nat)
    requires Inv(ns, si, ti, D, V, count) && NonNegWeights(ns)
    requires MinUpTo(D, V, |D|) == Some(u) && u != ti
    ensures var V' := V[u := true];
      Inv(ns, si, ti, RelaxEdges(ns, D, V', D[u].value, ns[u].edges), V', count + 1)
  {
    var V' := V[u := true];
    var D' := RelaxEdges(ns, D, V', D[u].value, ns[u].edges);
    RelaxEffect(ns, D, V', D[u].value, ns[u].edges);
    CountTrueSet(V, u);
    if count == 0 {
      FirstRoundPicksStart(|ns|, si);
    }
    SelectSettles(ns, si, ti, D, V, count, u);
    SoundAfterRound(ns, si, D, V', u);
    RelaxedAfterRound(ns, D, V, u);
    assert Settled(ns, si, D', V');
  }

  /** When the scan finds no candidate, the destination cannot be reached. */
  lemma NoCandidateUnreachable<N, E>(ns: seq<Node<N, E>>, si: nat, ti: nat, D: seq<Ext>, V: seq<bool>, count: nat)
    requires Inv(ns, si, ti, D, V, count) && NonNegWeights(ns)
    requires MinUpTo(D, V, |D|).None?
    ensures !Reachable(ns, si, ti)
  {
    if count == 0 {
      FirstRoundPicksStart(|ns|, si);
    }
    forall p ensures !IsPath(ns, si, ti, p) {
      if IsPath(ns, si, ti, p) {
        var b := Frontier(ns, si, D, V, ti, p);
      }
    }
  }

  /** What the main loop leaves at the destination: its shortest distance, or the sentinel when it cannot be reached. */
  ghost predicate Outcome<N, E>(ns: seq<Node<N, E>>, si: nat, ti: nat, x: Ext)
  {
    && (x.Fin? ==> IsShortest(ns, si, ti, x.value))
    && (x.Inf? ==> !Reachable(ns, si, ti))
  }

  /** When the scan selects the destination, its distance is the shortest one. */
  lemma SelectedIsShortest<N, E>(ns: seq<Node<N, E>>, si: nat, ti: nat, D: seq<Ext>, V: seq<bool>, count: nat)
    requires Inv(ns, si, ti, D, V, count) && NonNegWeights(ns)
    requires MinUpTo(D, V, |D|) == Some(ti)
    ensures IsShortest(ns, si, ti, D[ti].value)
  {
    SelectSettles(ns, si, ti, D, V, count, ti);
    assert HasPath(ns, si, D, ti);
  }

  /**
   * From any state satisfying the invariant, the main loop ends with the
   * destination at its shortest distance, or at the sentinel exactly when
   * it cannot be reached.
   */
  lemma {:induction false} RunCorrect<N, E>(ns: seq<Node<N, E>>, si: nat, ti: nat, endId: int, D: seq<Ext>, V: seq<bool>, count: nat)
    requires Inv(ns, si, ti, D, V, count) && NonNegWeights(ns) && UniqueIds(ns) && ns[ti].id == endId
    ensures Outcome(ns, si, ti, Run(ns, endId, D, V, count)[ti])
    decreases |ns| - count
  {
    CountTrueBelow(V, ti);
    assert count < |ns|;
    var R := Run(ns, endId, D, V, count);
    match MinUpTo(D, V, |D|)
    case None =>
      assert R == D;
      NoCandidateUnreachable(ns, si, ti, D, V, count);
    case Some(u) =>
      if ns[u].id == endId {
        assert R == D;
        assert u == ti;
        SelectedIsShortest(ns, si, ti, D, V, count);
      } else {
        var V' := V[u := true];
        var D' := RelaxEdges(ns, D, V', D[u].value, ns[u].edges);
        assert R == Run(ns, endId, D', V', count + 1);
        RoundPreserves(ns, si, ti, D, V, count, u);
        RunCorrect(ns, si, ti, endId, D', V', count + 1);
        assert R[ti] == Run(ns, endId, D', V', count + 1)[ti];
      }
  }

  // ---------------------------------------------------------------------------
  // The theorems
  // ---------------------------------------------------------------------------

  /**
   * On a graph with unique ids and non-negative weights, dijkstra finds a
   * distance exactly when the destination can be reached from the start,
   * and that distance is the weight of a shortest path.
   */
  lemma DijkstraCorrect<N, E>(ns: seq<Node<N, E>>, startId: int, endId: int)
    requires UniqueIds(ns) && NonNegWeights(ns)
    ensures Dijkstra(ns, startId, endId).Some? ==> IndexOf(ns, startId).Some? && IndexOf(ns, endId).Some?
    ensures IndexOf(ns, startId).Some? && IndexOf(ns, endId).Some? ==>
      var si, ti := IndexOf(ns, startId).value, IndexOf(ns, endId).value;
      && (Dijkstra(ns, startId, endId).Some? <==> Reachable(ns, si, ti))
      && (Dijkstra(ns, startId, endId).Some? ==> IsShortest(ns, si, ti, Dijkstra(ns, startId, endId).value))
  {
    if IndexOf(ns, startId).Some? && IndexOf(ns, endId).Some? {
      var si, ti := IndexOf(ns, startId).value, IndexOf(ns, endId).value;
      var n := |ns|;
      var D0, V0 := Initial(n, si), NoneVisited(n);
      CountTrueNone(n);
      assert IsPath(ns, si, si, []) && PathWeight(ns, []) == 0.0;
      assert HasPath(ns, si, D0, si);
      RunCorrect(ns, si, ti, endId, D0, V0, 0);
    }
  }

  /** From a node to itself the distance is 0, whatever the weights. */
  lemma DijkstraSelf<N, E>(ns: seq<Node<N, E>>, id: int)
    requires IndexOf(ns, id).Some?
    ensures Dijkstra(ns, id, id) == Some(0.0)
  {
    var si := IndexOf(ns, id).value;
    FirstRoundPicksStart(|ns|, si);
  }

  /**
   * Roads are one-way: with a single road from node 2 to node 1, dijkstra
   * finds it from 2 to 1 but reports no route from 1 to 2.
   */
  lemma OneWayRoad(w: real)
    ensures var ns := [Node(1, 0, []), Node(2, 0, [Edge(1, w, 0)])];
      Dijkstra(ns, 1, 2).None? && Dijkstra(ns, 2, 1) == Some(w)
  {
    var ns: seq<Node<int, int>> := [Node(1, 0, []), Node(2, 0, [Edge(1, w, 0)])];
    assert IndexOf(ns, 1) == Some(0) && IndexOf(ns, 2) == Some(1);
    // From 1: slot 0 is settled, it has no edges, and slot 1 stays at the sentinel.
    var D0, V0 := Initial(2, 0), NoneVisited(2);
    FirstRoundPicksStart(2, 0);
    var V1 := V0[0 := true];
    assert RelaxEdges(ns, D0, V1, 0.0, ns[0].edges) == D0;
    assert MinUpTo(D0, V1, 2).None?;
    assert Run(ns, 2, D0, V0, 0) == D0;
    // From 2: slot 1 is settled and relaxes its edge into slot 0, which is then selected.
    var E0 := Initial(2, 1);
    FirstRoundPicksStart(2, 1);
    var W1 := V0[1 := true];
    var E1 := RelaxEdges(ns, E0, W1, 0.0, ns[1].edges);
    assert E0 == [Inf, Fin(0.0)] by {
      assert E0[0] == Inf && E0[1] == Fin(0.0);
    }
    assert W1 == [false, true];
    assert ns[1].edges[..0] == [];
    assert RelaxEdges(ns, E0, W1, 0.0, ns[1].edges[..0]) == E0;
    assert E1 == [Fin(0.0 + w), Fin(0.0)];
    assert MinUpTo(E1, W1, 2) == Some(0);
    assert Run(ns, 1, E0, V0, 0) == Run(ns, 1, E1, W1, 1) == E1;
  }
}
