/**
 * The graph store: a directed graph held in a growable array of nodes, each
 * node owning its list of outgoing edges, with the counters nodeCount,
 * nodeSpace and edgeCount.
 *
 * A node is a value (id, payload, adjacency list); an edge names its
 * destination by id. The abstract state of a Graph object is the sequence of
 * its occupied slots, Nodes(); every operation is specified by a function on
 * that sequence (AddNodeSpec, AddEdgeSpec, RemoveEdgeSpec, RemoveNodeSpec),
 * and the store invariant says that ids are unique, that every edge leads to a
 * node of the graph and that no ordered pair has two edges.
 */
module GraphStore {
  import opened Wrappers

  /** INITIAL_CAPACITY: the number of slots a new graph starts with. */
  const InitialCapacity: nat := 100

  /** An outgoing edge: the id of its destination, its weight and the caller's payload. */
  datatype Edge<E> = Edge(to: int, weight: real, data: E)

  /** A node: its id, the caller's payload and its adjacency list, head first. */
  datatype Node<N, E> = Node(id: int, data: N, edges: seq<Edge<E>>)

  // ---------------------------------------------------------------------------
  // Lookups
  // ---------------------------------------------------------------------------

  /** The first slot whose node has the given id, or None. */
  function IndexOf<N, E>(ns: seq<Node<N, E>>, id: int): (r: Option<nat>)
    ensures r.Some? ==> r.value < |ns| && ns[r.value].id == id
    ensures r.Some? ==> forall j :: 0 <= j < r.value ==> ns[j].id != id
    ensures r.None? ==> forall j :: 0 <= j < |ns| ==> ns[j].id != id
  {
    if |ns| == 0 then None
    else if ns[0].id == id then Some(0)
    else match IndexOf(ns[1..], id)
      case None => None
      case Some(k) => Some(k + 1)
  }

  /** The first position in an adjacency list whose edge leads to `to`, or None. */
  function EdgeIndex<E>(es: seq<Edge<E>>, to: int): (r: Option<nat>)
    ensures r.Some? ==> r.value < |es| && es[r.value].to == to
    ensures r.Some? ==> forall k :: 0 <= k < r.value ==> es[k].to != to
    ensures r.None? ==> forall k :: 0 <= k < |es| ==> es[k].to != to
  {
    if |es| == 0 then None
    else if es[0].to == to then Some(0)
    else match EdgeIndex(es[1..], to)
      case None => None
      case Some(k) => Some(k + 1)
  }

  /** The edge getEdge finds: the first from->to edge of the first node with id fromId. */
  function FindEdge<N, E>(ns: seq<Node<N, E>>, fromId: int, toId: int): Option<Edge<E>>
  {
    match IndexOf(ns, fromId)
    case None => None
    case Some(i) =>
      match EdgeIndex(ns[i].edges, toId)
      case None => None
      case Some(k) => Some(ns[i].edges[k])
  }

  /** The total length of all adjacency lists. */
  function TotalEdges<N, E>(ns: seq<Node<N, E>>): nat
  {
    if |ns| == 0 then 0 else TotalEdges(ns[..|ns| - 1]) + |ns[|ns| - 1].edges|
  }

  // ---------------------------------------------------------------------------
  // The store invariant
  // ---------------------------------------------------------------------------

  ghost predicate UniqueIds<N, E>(ns: seq<Node<N, E>>)
  {
    forall i, j :: 0 <= i < j < |ns| ==> ns[i].id != ns[j].id
  }

  /** Every edge leads to a node that is in the graph. */
  ghost predicate EdgesClosed<N, E>(ns: seq<Node<N, E>>)
  {
    forall i, k :: 0 <= i < |ns| && 0 <= k < |ns[i].edges| ==> IndexOf(ns, ns[i].edges[k].to).Some?
  }

  /** No two edges of one list lead to the same node. */
  ghost predicate SingleEdges<E>(es: seq<Edge<E>>)
  {
    forall k, l :: 0 <= k < l < |es| ==> es[k].to != es[l].to
  }

  ghost predicate StoreInvariant<N, E>(ns: seq<Node<N, E>>)
  {
    && UniqueIds(ns)
    && EdgesClosed(ns)
    && forall i :: 0 <= i < |ns| ==> SingleEdges(ns[i].edges)
  }

  // ---------------------------------------------------------------------------
  // The operations, as functions on the sequence of nodes
  // ---------------------------------------------------------------------------

  /** addNode: a new id is appended with an empty list; a known id changes nothing. */
  function AddNodeSpec<N, E>(ns: seq<Node<N, E>>, id: int, data: N): seq<Node<N, E>>
  {
    if IndexOf(ns, id).Some? then ns else ns + [Node(id, data, [])]
  }

  /** addEdge: prepend a from->to edge when both ends exist and the pair has none. */
  function AddEdgeSpec<N, E>(ns: seq<Node<N, E>>, fromId: int, toId: int, weight: real, data: E): seq<Node<N, E>>
  {
    match IndexOf(ns, fromId)
    case None => ns
    case Some(i) =>
      if IndexOf(ns, toId).None? || EdgeIndex(ns[i].edges, toId).Some? then ns
      else ns[i := ns[i].(edges := [Edge(toId, weight, data)] + ns[i].edges)]
  }

  function RemoveAt<T>(s: seq<T>, k: nat): seq<T>
    requires k < |s|
  {
    s[..k] + s[k + 1..]
  }

  /** removeEdge: unlink the first from->to edge, if there is one. */
  function RemoveEdgeSpec<N, E>(ns: seq<Node<N, E>>, fromId: int, toId: int): seq<Node<N, E>>
  {
    match IndexOf(ns, fromId)
    case None => ns
    case Some(i) =>
      match EdgeIndex(ns[i].edges, toId)
      case None => ns
      case Some(k) => ns[i := ns[i].(edges := RemoveAt(ns[i].edges, k))]
  }

  /** The number of edges in a list that lead to `id`. */
  function CountTo<E>(es: seq<Edge<E>>, id: int): nat
  {
    if |es| == 0 then 0
    else CountTo(es[..|es| - 1], id) + (if es[|es| - 1].to == id then 1 else 0)
  }

  /** A list with the edges leading to `id` unlinked, the rest in their order. */
  function KeepEdges<E>(es: seq<Edge<E>>, id: int): (r: seq<Edge<E>>)
    ensures forall k :: 0 <= k < |r| ==> r[k] in es && r[k].to != id
    ensures forall k :: 0 <= k < |es| && es[k].to != id ==> es[k] in r
    ensures |r| + CountTo(es, id) == |es|
  {
    if |es| == 0 then []
    else KeepEdges(es[..|es| - 1], id) + (if es[|es| - 1].to == id then [] else [es[|es| - 1]])
  }

  function StripNode<N, E>(n: Node<N, E>, id: int): Node<N, E>
  {
    n.(edges := KeepEdges(n.edges, id))
  }

  function DropIncoming<N, E>(ns: seq<Node<N, E>>, id: int): seq<Node<N, E>>
  {
    seq(|ns|, i requires 0 <= i < |ns| => StripNode(ns[i], id))
  }

  /** The number of edges, over all lists, that lead to `id`. */
  function IncomingTo<N, E>(ns: seq<Node<N, E>>, id: int): nat
  {
    if |ns| == 0 then 0 else IncomingTo(ns[..|ns| - 1], id) + CountTo(ns[|ns| - 1].edges, id)
  }

  /** removeNode: drop the node's slot, closing the gap, and every edge leading to it. */
  function RemoveNodeSpec<N, E>(ns: seq<Node<N, E>>, id: int): seq<Node<N, E>>
  {
    match IndexOf(ns, id)
    case None => ns
    case Some(k) => DropIncoming(RemoveAt(ns, k), id)
  }

  // ---------------------------------------------------------------------------
  // Lemmas: counting edges
  // ---------------------------------------------------------------------------

  lemma {:induction false} TotalEdgesConcat<N, E>(a: seq<Node<N, E>>, b: seq<Node<N, E>>)
    ensures TotalEdges(a + b) == TotalEdges(a) + TotalEdges(b)
    decreases |b|
  {
    if |b| == 0 {
      assert a + b == a;
    } else {
      var b' := b[..|b| - 1];
      assert (a + b)[..|a + b| - 1] == a + b';
      TotalEdgesConcat(a, b');
    }
  }

  lemma TotalEdgesSplit<N, E>(ns: seq<Node<N, E>>, i: nat)
    requires i < |ns|
    ensures TotalEdges(ns) == TotalEdges(ns[..i]) + |ns[i].edges| + TotalEdges(ns[i + 1..])
  {
    assert ns == ns[..i] + [ns[i]] + ns[i + 1..];
    TotalEdgesConcat(ns[..i] + [ns[i]], ns[i + 1..]);
    TotalEdgesConcat(ns[..i], [ns[i]]);
    assert TotalEdges([ns[i]]) == |ns[i].edges| by {
      assert [ns[i]][..0] == [];
    }
  }

  /** Replacing one node changes the total by the difference of the two list lengths. */
  lemma TotalEdgesUpdate<N, E>(ns: seq<Node<N, E>>, i: nat, n: Node<N, E>)
    requires i < |ns|
    ensures TotalEdges(ns[i := n]) + |ns[i].edges| == TotalEdges(ns) + |n.edges|
  {
    var ms := ns[i := n];
    TotalEdgesSplit(ns, i);
    TotalEdgesSplit(ms, i);
    assert ms[..i] == ns[..i] && ms[i + 1..] == ns[i + 1..];
  }

  /** Removing a slot removes exactly that node's edges from the total. */
  lemma TotalEdgesRemoveAt<N, E>(ns: seq<Node<N, E>>, k: nat)
    requires k < |ns|
    ensures TotalEdges(RemoveAt(ns, k)) + |ns[k].edges| == TotalEdges(ns)
  {
    TotalEdgesSplit(ns, k);
    TotalEdgesConcat(ns[..k], ns[k + 1..]);
  }

  /** Unlinking the edges into `id` removes exactly IncomingTo(ns, id) edges. */
  lemma {:induction false} DropIncomingCount<N, E>(ns: seq<Node<N, E>>, id: int)
    ensures TotalEdges(DropIncoming(ns, id)) + IncomingTo(ns, id) == TotalEdges(ns)
    decreases |ns|
  {
    if |ns| > 0 {
      var init := ns[..|ns| - 1];
      var d := DropIncoming(ns, id);
      assert d[..|d| - 1] == DropIncoming(init, id);
      DropIncomingCount(init, id);
      assert |KeepEdges(ns[|ns| - 1].edges, id)| + CountTo(ns[|ns| - 1].edges, id) == |ns[|ns| - 1].edges|;
    }
  }

  // ---------------------------------------------------------------------------
  // Lemmas: the operations keep the store invariant
  // ---------------------------------------------------------------------------

  /** Lookup by id only depends on the ids, slot by slot. */
  lemma SameIdsSameIndex<N, E>(ns: seq<Node<N, E>>, ms: seq<Node<N, E>>, y: int)
    requires |ns| == |ms|
    requires forall i :: 0 <= i < |ns| ==> ns[i].id == ms[i].id
    ensures IndexOf(ns, y) == IndexOf(ms, y)
  {
    var a, b := IndexOf(ns, y), IndexOf(ms, y);
    if a.Some? && b.Some? {
      assert a.value <= b.value && b.value <= a.value;
    }
  }

  /** A node found by id stays found, at the same slot, when nodes are appended. */
  lemma IndexOfAppend<N, E>(ns: seq<Node<N, E>>, more: seq<Node<N, E>>, y: int)
    requires IndexOf(ns, y).Some?
    ensures IndexOf(ns + more, y) == IndexOf(ns, y)
  {
    var t := IndexOf(ns, y).value;
    assert (ns + more)[t].id == y;
  }

  lemma SingleEdgesKeep<E>(es: seq<Edge<E>>, id: int)
    requires SingleEdges(es)
    ensures SingleEdges(KeepEdges(es, id))
    decreases |es|
  {
    if |es| > 0 {
      var init := es[..|es| - 1];
      var last := es[|es| - 1];
      assert SingleEdges(init);
      SingleEdgesKeep(init, id);
      var r := KeepEdges(es, id);
      var r0 := KeepEdges(init, id);
      forall k, l | 0 <= k < l < |r| ensures r[k].to != r[l].to {
        if l >= |r0| {
          assert r[l] == last && r[k] == r0[k];
          assert r0[k] in init;
          var m :| 0 <= m < |init| && init[m] == r0[k];
          assert es[m] == r0[k];
        }
      }
    }
  }

  lemma AddNodePreserves<N, E>(ns: seq<Node<N, E>>, id: int, data: N)
    requires StoreInvariant(ns)
    ensures StoreInvariant(AddNodeSpec(ns, id, data))
    ensures TotalEdges(AddNodeSpec(ns, id, data)) == TotalEdges(ns)
  {
    if IndexOf(ns, id).None? {
      var ms := ns + [Node(id, data, [])];
      assert ms[..|ms| - 1] == ns;
      forall i, k | 0 <= i < |ms| && 0 <= k < |ms[i].edges|
        ensures IndexOf(ms, ms[i].edges[k].to).Some?
      {
        assert ms[i] == ns[i];
        IndexOfAppend(ns, [Node(id, data, [])], ns[i].edges[k].to);
      }
    }
  }

  /** Replacing one node's list keeps the invariant when the id stays and every new edge leads to a node. */
  lemma UpdateNodePreserves<N, E>(ns: seq<Node<N, E>>, i: nat, n: Node<N, E>)
    requires StoreInvariant(ns) && i < |ns|
    requires n.id == ns[i].id && SingleEdges(n.edges)
    requires forall k :: 0 <= k < |n.edges| ==> IndexOf(ns, n.edges[k].to).Some?
    ensures StoreInvariant(ns[i := n])
  {
    var ms := ns[i := n];
    forall y ensures IndexOf(ms, y) == IndexOf(ns, y) {
      SameIdsSameIndex(ns, ms, y);
    }
  }

  lemma SingleEdgesPrepend<E>(e: Edge<E>, es: seq<Edge<E>>)
    requires SingleEdges(es) && EdgeIndex(es, e.to).None?
    ensures SingleEdges([e] + es)
  {
    var r := [e] + es;
    forall k, l | 0 <= k < l < |r| ensures r[k].to != r[l].to {
      assert r[l] == es[l - 1];
      if k > 0 {
        assert r[k] == es[k - 1];
      }
    }
  }

  lemma SingleEdgesRemoveAt<E>(es: seq<Edge<E>>, k: nat)
    requires SingleEdges(es) && k < |es|
    ensures SingleEdges(RemoveAt(es, k))
    ensures forall q :: 0 <= q < |RemoveAt(es, k)| ==> RemoveAt(es, k)[q] == es[if q < k then q else q + 1]
  {
    var r := RemoveAt(es, k);
    assert forall q :: 0 <= q < |r| ==> r[q] == es[if q < k then q else q + 1];
  }

  lemma AddEdgePreserves<N, E>(ns: seq<Node<N, E>>, fromId: int, toId: int, weight: real, data: E)
    requires StoreInvariant(ns)
    ensures StoreInvariant(AddEdgeSpec(ns, fromId, toId, weight, data))
    ensures TotalEdges(AddEdgeSpec(ns, fromId, toId, weight, data))
         == TotalEdges(ns) + (if AddEdgeSpec(ns, fromId, toId, weight, data) == ns then 0 else 1)
  {
    var ms := AddEdgeSpec(ns, fromId, toId, weight, data);
    if ms != ns {
      var i := IndexOf(ns, fromId).value;
      var e := Edge(toId, weight, data);
      var n := ns[i].(edges := [e] + ns[i].edges);
      assert ms == ns[i := n];
      TotalEdgesUpdate(ns, i, n);
      SingleEdgesPrepend(e, ns[i].edges);
      forall k | 0 <= k < |n.edges| ensures IndexOf(ns, n.edges[k].to).Some? {
        if k > 0 {
          assert n.edges[k] == ns[i].edges[k - 1];
        }
      }
      UpdateNodePreserves(ns, i, n);
    }
  }

  lemma RemoveEdgePreserves<N, E>(ns: seq<Node<N, E>>, fromId: int, toId: int)
    requires StoreInvariant(ns)
    ensures StoreInvariant(RemoveEdgeSpec(ns, fromId, toId))
    ensures TotalEdges(RemoveEdgeSpec(ns, fromId, toId))
         == TotalEdges(ns) - (if FindEdge(ns, fromId, toId).Some? then 1 else 0)
  {
    if FindEdge(ns, fromId, toId).Some? {
      var i := IndexOf(ns, fromId).value;
      var es := ns[i].edges;
      var k := EdgeIndex(es, toId).value;
      var n := ns[i].(edges := RemoveAt(es, k));
      TotalEdgesUpdate(ns, i, n);
      SingleEdgesRemoveAt(es, k);
      UpdateNodePreserves(ns, i, n);
    }
  }

  /** KeepEdges changes nothing on a list with no edge into `id`. */
  lemma {:induction false} KeepEdgesNone<E>(es: seq<Edge<E>>, id: int)
    requires forall k :: 0 <= k < |es| ==> es[k].to != id
    ensures KeepEdges(es, id) == es
    decreases |es|
  {
    if |es| > 0 {
      KeepEdgesNone(es[..|es| - 1], id);
      assert es[..|es| - 1] + [es[|es| - 1]] == es;
    }
  }

  lemma RemoveAtIndex<T>(s: seq<T>, k: nat)
    requires k < |s|
    ensures |RemoveAt(s, k)| == |s| - 1
    ensures forall t :: 0 <= t < |s| - 1 ==> RemoveAt(s, k)[t] == s[if t < k then t else t + 1]
  {
  }

  /** Removing another slot keeps a node findable. */
  lemma IndexOfRemoveAt<N, E>(ns: seq<Node<N, E>>, k: nat, y: int)
    requires k < |ns| && ns[k].id != y && IndexOf(ns, y).Some?
    ensures IndexOf(RemoveAt(ns, k), y).Some?
  {
    RemoveAtIndex(ns, k);
    var m := IndexOf(ns, y).value;
    var m' := if m < k then m else m - 1;
    assert RemoveAt(ns, k)[m'].id == y;
  }

  lemma UniqueIdsRemoveAt<N, E>(ns: seq<Node<N, E>>, k: nat)
    requires UniqueIds(ns) && k < |ns|
    ensures UniqueIds(RemoveAt(ns, k))
  {
    var r := RemoveAt(ns, k);
    RemoveAtIndex(ns, k);
    forall i, j | 0 <= i < j < |r| ensures r[i].id != r[j].id {
      assert r[i] == ns[if i < k then i else i + 1];
      assert r[j] == ns[if j < k then j else j + 1];
    }
  }

  lemma RemoveNodePreserves<N, E>(ns: seq<Node<N, E>>, id: int)
    requires StoreInvariant(ns)
    ensures StoreInvariant(RemoveNodeSpec(ns, id))
  {
    if IndexOf(ns, id).Some? {
      var k := IndexOf(ns, id).value;
      var r := RemoveAt(ns, k);
      var ms := DropIncoming(r, id);
      UniqueIdsRemoveAt(ns, k);
      DropIncomingIds(r, id);
      RemoveNodeClosed(ns, k, id);
      forall i | 0 <= i < |ms| ensures SingleEdges(ms[i].edges) {
        RemoveAtIndex(ns, k);
        SingleEdgesKeep(r[i].edges, id);
      }
    }
  }

  /** Unlinking the edges into a node keeps every slot's id, so every lookup is unchanged. */
  lemma DropIncomingIds<N, E>(ns: seq<Node<N, E>>, id: int)
    ensures |DropIncoming(ns, id)| == |ns|
    ensures forall i :: 0 <= i < |ns| ==> DropIncoming(ns, id)[i].id == ns[i].id
    ensures forall y :: IndexOf(DropIncoming(ns, id), y) == IndexOf(ns, y)
  {
    forall y ensures IndexOf(DropIncoming(ns, id), y) == IndexOf(ns, y) {
      SameIdsSameIndex(ns, DropIncoming(ns, id), y);
    }
  }

  /** After removeNode every remaining edge still leads to a node of the graph. */
  lemma RemoveNodeClosed<N, E>(ns: seq<Node<N, E>>, k: nat, id: int)
    requires StoreInvariant(ns) && IndexOf(ns, id) == Some(k)
    ensures EdgesClosed(DropIncoming(RemoveAt(ns, k), id))
  {
    var r := RemoveAt(ns, k);
    var ms := DropIncoming(r, id);
    RemoveAtIndex(ns, k);
    DropIncomingIds(r, id);
    forall i, q | 0 <= i < |ms| && 0 <= q < |ms[i].edges|
      ensures IndexOf(ms, ms[i].edges[q].to).Some?
    {
      var src := if i < k then i else i + 1;
      var e := ms[i].edges[q];
      assert r[i] == ns[src];
      assert e in ns[src].edges && e.to != id;
      var q' :| 0 <= q' < |ns[src].edges| && ns[src].edges[q'] == e;
      IndexOfRemoveAt(ns, k, e.to);
    }
  }

  /**
   * The three phases of removeNode (free the node's edges, unlink the edges
   * into it, close the gap) compose to RemoveNodeSpec, and the counter drops
   * by the node's own edges plus the edges that led to it.
   */
  lemma RemoveNodePhases<N, E>(ns: seq<Node<N, E>>, mid: seq<Node<N, E>>, s: seq<Node<N, E>>, k: nat, id: int)
    requires StoreInvariant(ns) && IndexOf(ns, id) == Some(k)
    requires mid == ns[k := ns[k].(edges := [])]
    requires |s| == |mid|
    requires forall t :: 0 <= t < |s| ==> s[t] == if t == k then mid[t] else StripNode(mid[t], id)
    ensures RemoveAt(s, k) == RemoveNodeSpec(ns, id)
    ensures StoreInvariant(RemoveAt(s, k))
    ensures TotalEdges(RemoveAt(s, k)) == TotalEdges(s)
    ensures TotalEdges(RemoveAt(s, k)) == TotalEdges(ns) - |ns[k].edges| - IncomingTo(RemoveAt(ns, k), id)
  {
    TotalEdgesRemoveAt(s, k);
    RemoveAtIndex(s, k);
    RemoveAtIndex(ns, k);
    assert RemoveAt(s, k) == DropIncoming(RemoveAt(ns, k), id);
    RemoveNodePreserves(ns, id);
    TotalEdgesRemoveAt(ns, k);
    DropIncomingCount(RemoveAt(ns, k), id);
  }

  // ---------------------------------------------------------------------------
  // Lemmas: how the operations relate to each other
  // ---------------------------------------------------------------------------

  /** With unique ids, looking up the id of the node in slot i finds slot i. */
  lemma IndexOfUnique<N, E>(ns: seq<Node<N, E>>, i: nat)
    requires UniqueIds(ns) && i < |ns|
    ensures IndexOf(ns, ns[i].id) == Some(i)
  {
  }

  /**
   * What addNode does to lookups: the id is found afterwards, every id found
   * before keeps its slot and node, and a new id finds a node with the given
   * payload and no edges.
   */
  lemma AddNodeEffect<N, E>(ns: seq<Node<N, E>>, id: int, data: N)
    ensures var r := AddNodeSpec(ns, id, data);
      && IndexOf(r, id).Some?
      && (forall y :: IndexOf(ns, y).Some? ==> IndexOf(r, y) == IndexOf(ns, y) && r[IndexOf(r, y).value] == ns[IndexOf(ns, y).value])
      && (IndexOf(ns, id).None? ==> r[IndexOf(r, id).value] == Node(id, data, []))
  {
    if IndexOf(ns, id).None? {
      var r := ns + [Node(id, data, [])];
      assert r[|ns|].id == id;
      forall y | IndexOf(ns, y).Some? ensures IndexOf(r, y) == IndexOf(ns, y) {
        IndexOfAppend(ns, [Node(id, data, [])], y);
      }
    }
  }

  /**
   * What addEdge does to lookups: every id keeps its slot and payload, and
   * getEdge for the pair finds the edge it found before, or else, when both
   * ends exist, the new edge.
   */
  lemma AddEdgeEffect<N, E>(ns: seq<Node<N, E>>, fromId: int, toId: int, weight: real, data: E)
    ensures var r := AddEdgeSpec(ns, fromId, toId, weight, data);
      && |r| == |ns|
      && (forall i :: 0 <= i < |ns| ==> r[i].id == ns[i].id && r[i].data == ns[i].data)
      && (forall y :: IndexOf(r, y) == IndexOf(ns, y))
      && FindEdge(r, fromId, toId) ==
           if FindEdge(ns, fromId, toId).Some? || IndexOf(ns, fromId).None? || IndexOf(ns, toId).None?
           then FindEdge(ns, fromId, toId)
           else Some(Edge(toId, weight, data))
  {
    var r := AddEdgeSpec(ns, fromId, toId, weight, data);
    forall y ensures IndexOf(r, y) == IndexOf(ns, y) {
      SameIdsSameIndex(ns, r, y);
    }
    if r != ns {
      var i := IndexOf(ns, fromId).value;
      assert EdgeIndex(r[i].edges, toId) == Some(0);
    }
  }

  /** Adding a node whose id is taken is a no-op, so the first payload for an id wins. */
  lemma AddNodeFirstWins<N, E>(ns: seq<Node<N, E>>, id: int, first: N, second: N)
    ensures AddNodeSpec(AddNodeSpec(ns, id, first), id, second) == AddNodeSpec(ns, id, first)
  {
    var ms := AddNodeSpec(ns, id, first);
    if IndexOf(ns, id).None? {
      assert ms[|ns|].id == id;
    }
  }

  /** A second from->to edge is refused: adding the same ordered pair twice leaves one edge. */
  lemma AddEdgeTwice<N, E>(ns: seq<Node<N, E>>, fromId: int, toId: int, w1: real, d1: E, w2: real, d2: E)
    ensures AddEdgeSpec(AddEdgeSpec(ns, fromId, toId, w1, d1), fromId, toId, w2, d2)
         == AddEdgeSpec(ns, fromId, toId, w1, d1)
  {
    var ms := AddEdgeSpec(ns, fromId, toId, w1, d1);
    if ms != ns {
      var i := IndexOf(ns, fromId).value;
      SameIdsSameIndex(ns, ms, fromId);
      assert EdgeIndex(ms[i].edges, toId) == Some(0);
    }
  }

  /** Removing the edge just added restores the graph. */
  lemma RemoveEdgeUndoesAddEdge<N, E>(ns: seq<Node<N, E>>, fromId: int, toId: int, weight: real, data: E)
    requires FindEdge(ns, fromId, toId).None? && IndexOf(ns, toId).Some?
    ensures RemoveEdgeSpec(AddEdgeSpec(ns, fromId, toId, weight, data), fromId, toId) == ns
  {
    if IndexOf(ns, fromId).Some? {
      var i := IndexOf(ns, fromId).value;
      var es := [Edge(toId, weight, data)] + ns[i].edges;
      var ms := ns[i := ns[i].(edges := es)];
      assert AddEdgeSpec(ns, fromId, toId, weight, data) == ms;
      NewEdgesSameIndex(ns, i, es, fromId);
      assert EdgeIndex(es, toId) == Some(0);
      assert RemoveAt(es, 0) == ns[i].edges;
      assert ms[i := ms[i].(edges := ns[i].edges)] == ns;
    }
  }

  /** Replacing one node's adjacency list leaves every lookup by id unchanged. */
  lemma NewEdgesSameIndex<N, E>(ns: seq<Node<N, E>>, i: nat, es: seq<Edge<E>>, y: int)
    requires i < |ns|
    ensures IndexOf(ns[i := ns[i].(edges := es)], y) == IndexOf(ns, y)
  {
    SameIdsSameIndex(ns, ns[i := ns[i].(edges := es)], y);
  }

  /** Removing a node just added restores the graph, since no edge can lead to a new id. */
  lemma RemoveNodeUndoesAddNode<N, E>(ns: seq<Node<N, E>>, id: int, data: N)
    requires StoreInvariant(ns) && IndexOf(ns, id).None?
    ensures RemoveNodeSpec(AddNodeSpec(ns, id, data), id) == ns
  {
    var ms := ns + [Node(id, data, [])];
    assert IndexOf(ms, id) == Some(|ns|) by {
      assert ms[|ns|].id == id;
    }
    assert RemoveAt(ms, |ns|) == ns;
    forall i | 0 <= i < |ns| ensures StripNode(ns[i], id) == ns[i] {
      forall k | 0 <= k < |ns[i].edges| ensures ns[i].edges[k].to != id {
        assert IndexOf(ns, ns[i].edges[k].to).Some?;
      }
      KeepEdgesNone(ns[i].edges, id);
    }
  }

  // ---------------------------------------------------------------------------
  // Unlinking the edges into one node from one list
  // ---------------------------------------------------------------------------

  /**
   * The prev/current walk of removeNode over one adjacency list: edges into
   * `id` are unlinked and counted, the others stay in their order.
   */
  method DropEdgesTo<E>(es: seq<Edge<E>>, id: int) returns (kept: seq<Edge<E>>, dropped: nat)
    ensures kept == KeepEdges(es, id)
    ensures dropped == CountTo(es, id)
  {
    kept, dropped := [], 0;
    var k := 0;
    while k < |es|
      invariant 0 <= k <= |es|
      invariant kept == KeepEdges(es[..k], id)
      invariant dropped == CountTo(es[..k], id)
    {
      assert es[..k + 1][..k] == es[..k];
      if es[k].to == id {
        dropped := dropped + 1;
      } else {
        kept := kept + [es[k]];
      }
      k := k + 1;
    }
    assert es[..k] == es;
  }

  // ---------------------------------------------------------------------------
  // The graph object
  // ---------------------------------------------------------------------------

  class Graph<N(0), E(0)> {
    var nodes: array<Node<N, E>>
    var nodeCount: nat
    var nodeSpace: nat
    var edgeCount: int

    /** The occupied slots, in order. */
    ghost function Nodes(): seq<Node<N, E>>
      reads this, nodes
      requires nodeCount <= nodes.Length
    {
      nodes[..nodeCount]
    }

    ghost predicate Valid()
      reads this, nodes
    {
      && nodes.Length == nodeSpace
      && 0 < nodeSpace
      && nodeCount <= nodeSpace
      && StoreInvariant(nodes[..nodeCount])
      && edgeCount == TotalEdges(nodes[..nodeCount])
    }

    /** createGraph */
    constructor ()
      ensures Valid() && fresh(nodes)
      ensures Nodes() == [] && nodeSpace == InitialCapacity && edgeCount == 0
    {
      nodes := new Node<N, E>[InitialCapacity];
      nodeCount := 0;
      nodeSpace := InitialCapacity;
      edgeCount := 0;
    }

    /** findNode: the slot of the first node with this id, by a linear scan. */
    method FindNode(id: int) returns (r: Option<nat>)
      requires Valid()
      ensures r == IndexOf(Nodes(), id)
    {
      var i := 0;
      while i < nodeCount
        invariant 0 <= i <= nodeCount
        invariant forall j :: 0 <= j < i ==> nodes[j].id != id
      {
        if nodes[i].id == id {
          return Some(i);
        }
        i := i + 1;
      }
      return None;
    }

    /** getNode */
    method GetNode(id: int) returns (n: Option<Node<N, E>>)
      requires Valid()
      ensures n.Some? <==> IndexOf(Nodes(), id).Some?
      ensures n.Some? ==> n.value == Nodes()[IndexOf(Nodes(), id).value] && n.value.id == id
    {
      var r := FindNode(id);
      n := if r.Some? then Some(nodes[r.value]) else None;
    }

    /** getEdge: the first from->to edge in the source node's list. */
    method GetEdge(fromId: int, toId: int) returns (r: Option<Edge<E>>)
      requires Valid()
      ensures r == FindEdge(Nodes(), fromId, toId)
      ensures r.Some? ==> r.value.to == toId
    {
      var fromNode := FindNode(fromId);
      if fromNode.None? {
        return None;
      }
      var es := nodes[fromNode.value].edges;
      var k := 0;
      while k < |es|
        invariant 0 <= k <= |es|
        invariant forall j :: 0 <= j < k ==> es[j].to != toId
      {
        if es[k].to == toId {
          return Some(es[k]);
        }
        k := k + 1;
      }
      return None;
    }

    /** addNode: refuse a known id; double the array when it is full; append. */
    method AddNode(id: int, data: N) returns (added: bool)
      requires Valid()
      modifies this, nodes
      ensures Valid()
      ensures added <==> IndexOf(old(Nodes()), id).None?
      ensures Nodes() == AddNodeSpec(old(Nodes()), id, data)
      ensures edgeCount == old(edgeCount)
      ensures nodeSpace == if added && old(nodeCount) == old(nodeSpace) then 2 * old(nodeSpace) else old(nodeSpace)
      ensures nodes == old(nodes) || fresh(nodes)
    {
      var found := FindNode(id);
      if found.Some? {
        return false;
      }
      ghost var ns := Nodes();
      if nodeCount == nodeSpace {
        Grow();
      }
      AddNodePreserves(ns, id, data);
      Append(Node(id, data, []));
      return true;
    }

    /** The growth step of addNode: move the slots to a new array of twice the size. */
    method Grow()
      requires Valid()
      modifies this
      ensures Valid() && fresh(nodes) && nodeCount < nodeSpace
      ensures Nodes() == old(Nodes()) && nodeSpace == 2 * old(nodeSpace)
      ensures nodeCount == old(nodeCount) && edgeCount == old(edgeCount)
    {
      var newNodes := new Node<N, E>[nodeSpace * 2];
      var i := 0;
      while i < nodeCount
        invariant 0 <= i <= nodeCount
        invariant forall j :: 0 <= j < i ==> newNodes[j] == nodes[j]
        modifies newNodes
      {
        newNodes[i] := nodes[i];
        i := i + 1;
      }
      assert newNodes[..nodeCount] == nodes[..nodeCount];
      nodes := newNodes;
      nodeSpace := nodeSpace * 2;
    }

    /** addEdge: refuse a missing end or an existing pair; otherwise prepend. */
    method AddEdge(fromId: int, toId: int, weight: real, data: E) returns (added: bool)
      requires Valid()
      modifies this, nodes
      ensures Valid() && nodes == old(nodes) && nodeSpace == old(nodeSpace)
      ensures added <==> IndexOf(old(Nodes()), fromId).Some? && IndexOf(old(Nodes()), toId).Some?
                         && FindEdge(old(Nodes()), fromId, toId).None?
      ensures Nodes() == AddEdgeSpec(old(Nodes()), fromId, toId, weight, data)
      ensures edgeCount == old(edgeCount) + (if added then 1 else 0)
    {
      var fromNode := FindNode(fromId);
      var toNode := FindNode(toId);
      if fromNode.None? || toNode.None? {
        return false;
      }
      var existing := GetEdge(fromId, toId);
      if existing.Some? {
        return false;
      }
      ghost var ns := Nodes();
      var i := fromNode.value;
      ghost var n := ns[i].(edges := [Edge(toId, weight, data)] + ns[i].edges);
      assert AddEdgeSpec(ns, fromId, toId, weight, data) == ns[i := n];
      assert |n.edges| != |ns[i].edges|;
      AddEdgePreserves(ns, fromId, toId, weight, data);
      SetSlot(i, nodes[i].(edges := [Edge(toId, weight, data)] + nodes[i].edges));
      edgeCount := edgeCount + 1;
      return true;
    }

    /** The walk along one adjacency list that removeEdge makes to find the edge into `toId`. */
    static method LocateEdge(es: seq<Edge<E>>, toId: int) returns (r: Option<nat>)
      ensures r == EdgeIndex(es, toId)
    {
      var k := 0;
      while k < |es|
        invariant 0 <= k <= |es|
        invariant forall j :: 0 <= j < k ==> es[j].to != toId
      {
        if es[k].to == toId {
          return Some(k);
        }
        k := k + 1;
      }
      return None;
    }

    /** removeEdge: unlink the first from->to edge and report whether there was one. */
    method RemoveEdge(fromId: int, toId: int) returns (removed: bool)
      requires Valid()
      modifies this, nodes
      ensures Valid() && nodes == old(nodes) && nodeSpace == old(nodeSpace)
      ensures removed <==> FindEdge(old(Nodes()), fromId, toId).Some?
      ensures Nodes() == RemoveEdgeSpec(old(Nodes()), fromId, toId)
      ensures edgeCount == old(edgeCount) - (if removed then 1 else 0)
    {
      var fromNode := FindNode(fromId);
      if fromNode.None? {
        return false;
      }
      ghost var ns := Nodes();
      var i := fromNode.value;
      var es := nodes[i].edges;
      var found := LocateEdge(es, toId);
      if found.None? {
        return false;
      }
      var k := found.value;
      ghost var n := ns[i].(edges := RemoveAt(es, k));
      assert RemoveEdgeSpec(ns, fromId, toId) == ns[i := n];
      RemoveEdgePreserves(ns, fromId, toId);
      SetSlot(i, nodes[i].(edges := RemoveAt(es, k)));
      edgeCount := edgeCount - 1;
      return true;
    }

    /**
     * removeNode: free the node's own edges, unlink every edge into it from
     * the other lists, then shift the later slots down by one.
     */
    method RemoveNode(id: int) returns (removed: bool)
      requires Valid()
      modifies this, nodes
      ensures Valid() && nodes == old(nodes) && nodeSpace == old(nodeSpace)
      ensures removed <==> IndexOf(old(Nodes()), id).Some?
      ensures Nodes() == RemoveNodeSpec(old(Nodes()), id)
      ensures removed ==>
        var k := IndexOf(old(Nodes()), id).value;
        edgeCount == old(edgeCount) - |old(Nodes())[k].edges| - IncomingTo(RemoveAt(old(Nodes()), k), id)
      ensures !removed ==> edgeCount == old(edgeCount)
    {
      var found := FindNode(id);
      if found.None? {
        return false;
      }
      var k := found.value;
      ghost var ns := Nodes();
      FreeOutgoing(k);
      ghost var mid := Nodes();
      UnlinkIncoming(k, id);
      ghost var s := Nodes();
      CloseGap(k);
      RemoveNodePhases(ns, mid, s, k, id);
      assert nodes[..nodeCount] == RemoveAt(s, k);
      return true;
    }

    /** The first phase of removeNode: free slot k's edges, one decrement each. */
    method FreeOutgoing(k: nat)
      requires nodeCount <= nodes.Length && k < nodeCount
      requires edgeCount == TotalEdges(Nodes())
      modifies this, nodes
      ensures nodes == old(nodes) && nodeCount == old(nodeCount) && nodeSpace == old(nodeSpace)
      ensures Nodes() == old(Nodes())[k := old(Nodes())[k].(edges := [])]
      ensures edgeCount == TotalEdges(Nodes())
    {
      ghost var ns := Nodes();
      var out := nodes[k].edges;
      var j := 0;
      while j < |out|
        invariant 0 <= j <= |out|
        invariant nodes == old(nodes) && nodeCount == old(nodeCount) && nodeSpace == old(nodeSpace)
        invariant edgeCount == old(edgeCount) - j
        modifies this
      {
        edgeCount := edgeCount - 1;
        j := j + 1;
      }
      TotalEdgesUpdate(ns, k, ns[k].(edges := []));
      SetSlot(k, nodes[k].(edges := []));
    }

    /** The second phase of removeNode: unlink the edges into `id` from every slot but k. */
    method UnlinkIncoming(k: nat, id: int)
      requires nodeCount <= nodes.Length && k < nodeCount
      requires edgeCount == TotalEdges(Nodes())
      modifies this, nodes
      ensures nodes == old(nodes) && nodeCount == old(nodeCount) && nodeSpace == old(nodeSpace)
      ensures |Nodes()| == |old(Nodes())|
      ensures forall t :: 0 <= t < nodeCount ==>
        Nodes()[t] == if t == k then old(Nodes())[t] else StripNode(old(Nodes())[t], id)
      ensures edgeCount == TotalEdges(Nodes())
    {
      ghost var ns := Nodes();
      var n := nodeCount;
      var i := 0;
      while i < n
        invariant 0 <= i <= n
        invariant nodes == old(nodes) && nodeCount == n && nodeSpace == old(nodeSpace)
        invariant |Nodes()| == n
        invariant forall t :: 0 <= t < n ==>
          Nodes()[t] == if t < i && t != k then StripNode(ns[t], id) else ns[t]
        invariant edgeCount == TotalEdges(Nodes())
      {
        if i != k {
          StripSlot(i, id);
        }
        i := i + 1;
      }
    }

    /** One step of the second phase: unlink slot i's edges into id, one decrement each. */
    method StripSlot(i: nat, id: int)
      requires nodeCount <= nodes.Length && i < nodeCount
      requires edgeCount == TotalEdges(Nodes())
      modifies this, nodes
      ensures nodes == old(nodes) && nodeCount == old(nodeCount) && nodeSpace == old(nodeSpace)
      ensures Nodes() == old(Nodes())[i := StripNode(old(Nodes())[i], id)]
      ensures edgeCount == TotalEdges(Nodes())
    {
      var kept, dropped := DropEdgesTo(nodes[i].edges, id);
      ghost var before := Nodes();
      TotalEdgesUpdate(before, i, nodes[i].(edges := kept));
      SetSlot(i, nodes[i].(edges := kept));
      edgeCount := edgeCount - dropped;
    }

    /** Overwrite one occupied slot. */
    method SetSlot(i: nat, n: Node<N, E>)
      requires nodeCount <= nodes.Length && i < nodeCount
      modifies nodes
      ensures Nodes() == old(Nodes())[i := n]
    {
      nodes[i] := n;
      assert Nodes() == old(Nodes())[i := n];
    }

    /** Fill the first free slot. */
    method Append(n: Node<N, E>)
      requires nodeCount < nodes.Length
      modifies this, nodes
      ensures nodes == old(nodes) && nodeSpace == old(nodeSpace) && edgeCount == old(edgeCount)
      ensures nodeCount == old(nodeCount) + 1
      ensures Nodes() == old(Nodes()) + [n]
    {
      nodes[nodeCount] := n;
      nodeCount := nodeCount + 1;
      assert Nodes() == old(Nodes()) + [n];
    }

    /** The last phase of removeNode: shift the slots after k down by one. */
    method CloseGap(k: nat)
      requires nodeCount <= nodes.Length && k < nodeCount
      modifies this, nodes
      ensures nodes == old(nodes) && nodeSpace == old(nodeSpace) && edgeCount == old(edgeCount)
      ensures nodeCount == old(nodeCount) - 1
      ensures Nodes() == RemoveAt(old(Nodes()), k)
    {
      ghost var s := Nodes();
      var n := nodeCount;
      var i := k;
      while i < n - 1
        invariant k <= i <= n - 1
        invariant forall t :: 0 <= t < k ==> nodes[t] == s[t]
        invariant forall t :: k <= t < i ==> nodes[t] == s[t + 1]
        invariant forall t :: i <= t < n ==> nodes[t] == s[t]
        modifies nodes
      {
        nodes[i] := nodes[i + 1];
        i := i + 1;
      }
      nodeCount := n - 1;
      assert Nodes() == RemoveAt(s, k);
    }
  }
}
