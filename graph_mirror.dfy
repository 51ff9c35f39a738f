/**
 * The server-side mirror of the displayed graph, `virtualNetwork`, a graphlib
 * `Graph` in both servers: `populateVirtualNetwork` writes an element array
 * into it, `getVirtualNetworkData` reads it back as an element array and
 * `collapseVirtualNetwork` removes listed elements.
 *
 * The graph is a map from node id to node label plus a map from
 * (source, target) to edge label. graphlib's `setEdge` creates a missing
 * endpoint with no label (`None` here), and `removeNode` drops the edges that
 * touch the node. The D3 server also carries each node's `hosts` and `vulns`;
 * `hostData` selects that variant.
 */
module GraphMirror {
  import opened Wrappers
  import opened JsValue

  /** The `data` object of one element. A property the object lacks is `Undefined`. */
  datatype ElementData = ElementData(
    id: Value, source: Value, target: Value, caption: Value, kind: Value,
    parent: Value, details: Value, hosts: Value, vulns: Value)

  /** The element array handed to `populateVirtualNetwork`, or something that is not an array. */
  datatype Input = Elements(items: seq<ElementData>) | NotAnArray

  /** `source !== undefined && target !== undefined`. */
  predicate IsEdgeElement(e: ElementData) {
    e.source != Undefined && e.target != Undefined
  }

  /** What `populateVirtualNetwork` accepts as a node: an id and a truthy type. */
  predicate IsNodeElement(e: ElementData) {
    !IsEdgeElement(e) && e.id != Undefined && Truthy(e.kind)
  }

  /** A node label; `parent` is `Undefined` when the property was not set. */
  datatype NodeAttrs = NodeAttrs(caption: Value, kind: Value, details: Value, hosts: Value, vulns: Value, parent: Value)

  /** An edge label `{ id, type }`. */
  datatype EdgeAttrs = EdgeAttrs(id: string, kind: Value)

  type EdgeKey = (string, string)

  datatype Graph = Graph(nodes: map<string, Option<NodeAttrs>>, edges: map<EdgeKey, EdgeAttrs>)

  const Empty: Graph := Graph(map[], map[])

  /** Every edge joins two nodes of the graph (graphlib keeps this). */
  ghost predicate Closed(g: Graph) {
    forall k :: k in g.edges ==> k.0 in g.nodes && k.1 in g.nodes
  }

  /**
   * Node labels as `populateVirtualNetwork` stores them: `parent` is absent or
   * truthy, and without `hostData` there are no `hosts` or `vulns`.
   */
  ghost predicate WellStored(g: Graph, hostData: bool) {
    forall v :: v in g.nodes && g.nodes[v].Some? ==>
      (g.nodes[v].value.parent == Undefined || Truthy(g.nodes[v].value.parent)) &&
      (!hostData ==> g.nodes[v].value.hosts == Undefined && g.nodes[v].value.vulns == Undefined)
  }

  /** Every node has a label, so that reading `.label` off it cannot throw. */
  ghost predicate Labelled(g: Graph) {
    forall v :: v in g.nodes ==> g.nodes[v].Some?
  }

  // ------------------------------------------------------------ populate

  /** The node label built from an element: `parent` only when truthy, `hosts`/`vulns` only with `hostData`. */
  function StoredAttrs(e: ElementData, hostData: bool): NodeAttrs {
    NodeAttrs(e.caption, e.kind, e.details,
      if hostData then e.hosts else Undefined,
      if hostData then e.vulns else Undefined,
      if Truthy(e.parent) then e.parent else Undefined)
  }

  /** graphlib `setEdge(v, w, label)`: missing endpoints are created without a label. */
  function SetEdge(g: Graph, v: string, w: string, a: EdgeAttrs): (r: Graph)
    ensures Closed(g) ==> Closed(r)
    ensures r.edges == g.edges[(v, w) := a]
    ensures r.nodes.Keys == g.nodes.Keys + {v, w}
    ensures forall x :: x in g.nodes ==> r.nodes[x] == g.nodes[x]
    ensures forall x :: x in r.nodes && x !in g.nodes ==> r.nodes[x] == None
  {
    var withV := if v in g.nodes then g.nodes else g.nodes[v := None];
    var withW := if w in withV then withV else withV[w := None];
    Graph(withW, g.edges[(v, w) := a])
  }

  /** The handling of one element by the `forEach` of `populateVirtualNetwork`. */
  function Apply(g: Graph, e: ElementData, hostData: bool): Graph {
    if IsEdgeElement(e) then SetEdge(g, ToStr(e.source), ToStr(e.target), EdgeAttrs(ToStr(e.id), e.caption))
    else if IsNodeElement(e) then g.(nodes := g.nodes[ToStr(e.id) := Some(StoredAttrs(e, hostData))])
    else g
  }

  function ApplyAll(g: Graph, es: seq<ElementData>, hostData: bool): Graph {
    if es == [] then g else Apply(ApplyAll(g, es[..|es| - 1], hostData), es[|es| - 1], hostData)
  }

  /** Populating keeps every edge between two nodes and every node label well stored. */
  lemma {:induction false} ApplyAllValid(g: Graph, es: seq<ElementData>, hostData: bool)
    requires Closed(g) && WellStored(g, hostData)
    ensures Closed(ApplyAll(g, es, hostData)) && WellStored(ApplyAll(g, es, hostData), hostData)
  {
    if es != [] {
      ApplyAllValid(g, es[..|es| - 1], hostData);
    }
  }

  lemma ApplyAllAppend(g: Graph, es: seq<ElementData>, e: ElementData, hostData: bool)
    ensures ApplyAll(g, es + [e], hostData) == Apply(ApplyAll(g, es, hostData), e, hostData)
  {
    assert (es + [e])[..|es|] == es;
  }

  lemma {:induction false} ApplyAllConcat(g: Graph, a: seq<ElementData>, b: seq<ElementData>, hostData: bool)
    ensures ApplyAll(g, a + b, hostData) == ApplyAll(ApplyAll(g, a, hostData), b, hostData)
  {
    if b == [] {
      assert a + b == a;
    } else {
      var init, last := b[..|b| - 1], b[|b| - 1];
      assert a + b == (a + init) + [last];
      ApplyAllConcat(g, a, init, hostData);
      ApplyAllAppend(g, a + init, last, hostData);
    }
  }

  /**
   * Each node is left with the label of the last node element that names it;
   * a node that no node element names keeps its label.
   */
  lemma {:induction false} ApplyAllLastWins(g: Graph, es: seq<ElementData>, hostData: bool, v: string)
    ensures var r := ApplyAll(g, es, hostData);
      match LastNodeWrite(es, v)
      case Some(i) => v in r.nodes && r.nodes[v] == Some(StoredAttrs(es[i], hostData))
      case None => v in g.nodes ==> v in r.nodes && r.nodes[v] == g.nodes[v]
  {
    if es != [] {
      var init, last := es[..|es| - 1], es[|es| - 1];
      ApplyAllLastWins(g, init, hostData, v);
    }
  }

  /** The index of the last node element whose id is `v`. */
  function LastNodeWrite(es: seq<ElementData>, v: string): (r: Option<nat>)
    ensures r.Some? ==> r.value < |es| && IsNodeElement(es[r.value]) && ToStr(es[r.value].id) == v
    ensures r.Some? ==> forall j :: r.value < j < |es| && IsNodeElement(es[j]) ==> ToStr(es[j].id) != v
    ensures r.None? ==> forall j :: 0 <= j < |es| && IsNodeElement(es[j]) ==> ToStr(es[j].id) != v
  {
    if es == [] then None
    else
      var last := es[|es| - 1];
      if IsNodeElement(last) && ToStr(last.id) == v then Some(|es| - 1)
      else LastNodeWrite(es[..|es| - 1], v)
  }

  // ------------------------------------------------------------ read back

  /** `order` lists each key of `keys` exactly once (graphlib's `nodes()` / `edges()`). */
  ghost predicate Enumerates<K(!new)>(order: seq<K>, keys: set<K>) {
    (forall x :: x in order <==> x in keys) &&
    Distinct(order)
  }

  /** The element `getVirtualNetworkData` emits for a node. */
  function NodeElement(v: string, a: NodeAttrs, hostData: bool): ElementData {
    ElementData(Str(v), Undefined, Undefined, a.caption, a.kind,
      if Truthy(a.parent) then a.parent else Undefined, a.details,
      if hostData then a.hosts else Undefined,
      if hostData then a.vulns else Undefined)
  }

  /** The element `getVirtualNetworkData` emits for an edge: its `type` becomes the `label`. */
  function EdgeElement(k: EdgeKey, a: EdgeAttrs): ElementData {
    ElementData(Str(a.id), Str(k.0), Str(k.1), a.kind, Undefined, Undefined, Undefined, Undefined, Undefined)
  }

  lemma ApplyEdgeElement(g: Graph, k: EdgeKey, a: EdgeAttrs, hostData: bool)
    ensures Apply(g, EdgeElement(k, a), hostData) == SetEdge(g, k.0, k.1, a)
  {
  }

  function NodeElements(g: Graph, order: seq<string>, hostData: bool): (r: seq<ElementData>)
    requires forall v :: v in order ==> v in g.nodes && g.nodes[v].Some?
    ensures |r| == |order|
  {
    if order == [] then []
    else
      var v := order[|order| - 1];
      NodeElements(g, order[..|order| - 1], hostData) + [NodeElement(v, g.nodes[v].value, hostData)]
  }

  function EdgeElements(g: Graph, order: seq<EdgeKey>): (r: seq<ElementData>)
    requires forall k :: k in order ==> k in g.edges
    ensures |r| == |order|
  {
    if order == [] then []
    else
      var k := order[|order| - 1];
      EdgeElements(g, order[..|order| - 1]) + [EdgeElement(k, g.edges[k])]
  }

  /** All node elements, then all edge elements. */
  function Listing(g: Graph, nodeOrder: seq<string>, edgeOrder: seq<EdgeKey>, hostData: bool): (r: seq<ElementData>)
    requires Labelled(g) && Enumerates(nodeOrder, g.nodes.Keys) && Enumerates(edgeOrder, g.edges.Keys)
    ensures |r| == |g.nodes| + |g.edges|
  {
    EnumerationSize(nodeOrder, g.nodes.Keys);
    EnumerationSize(edgeOrder, g.edges.Keys);
    NodeElements(g, nodeOrder, hostData) + EdgeElements(g, edgeOrder)
  }

  lemma {:induction false} NodeElementsAt(g: Graph, order: seq<string>, hostData: bool, i: nat)
    requires forall v :: v in order ==> v in g.nodes && g.nodes[v].Some?
    requires i < |order|
    ensures NodeElements(g, order, hostData)[i] == NodeElement(order[i], g.nodes[order[i]].value, hostData)
  {
    if i < |order| - 1 {
      NodeElementsAt(g, order[..|order| - 1], hostData, i);
    }
  }

  lemma {:induction false} EdgeElementsAt(g: Graph, order: seq<EdgeKey>, i: nat)
    requires forall k :: k in order ==> k in g.edges
    requires i < |order|
    ensures EdgeElements(g, order)[i] == EdgeElement(order[i], g.edges[order[i]])
  {
    if i < |order| - 1 {
      EdgeElementsAt(g, order[..|order| - 1], i);
    }
  }

  lemma NodeElementsPrefix(g: Graph, order: seq<string>, hostData: bool, i: nat)
    requires i < |order| && forall v :: v in order[..i + 1] ==> v in g.nodes && g.nodes[v].Some?
    ensures NodeElements(g, order[..i + 1], hostData) ==
      NodeElements(g, order[..i], hostData) + [NodeElement(order[i], g.nodes[order[i]].value, hostData)]
  {
    assert order[..i + 1][..i] == order[..i];
  }

  lemma EdgeElementsPrefix(g: Graph, order: seq<EdgeKey>, i: nat)
    requires i < |order| && forall k :: k in order[..i + 1] ==> k in g.edges
    ensures EdgeElements(g, order[..i + 1]) == EdgeElements(g, order[..i]) + [EdgeElement(order[i], g.edges[order[i]])]
  {
    assert order[..i + 1][..i] == order[..i];
  }

  /**
   * The listing opens with one element per node, in graphlib's node order;
   * `parent` appears only when truthy.
   */
  lemma ListingNodes(g: Graph, nodeOrder: seq<string>, edgeOrder: seq<EdgeKey>, hostData: bool)
    requires Labelled(g) && Enumerates(nodeOrder, g.nodes.Keys) && Enumerates(edgeOrder, g.edges.Keys)
    ensures var r := Listing(g, nodeOrder, edgeOrder, hostData);
      forall i :: 0 <= i < |nodeOrder| ==>
        && r[i] == NodeElement(nodeOrder[i], g.nodes[nodeOrder[i]].value, hostData)
        && !IsEdgeElement(r[i]) && r[i].id == Str(nodeOrder[i])
        && (Truthy(r[i].parent) || r[i].parent == Undefined)
  {
    var r := Listing(g, nodeOrder, edgeOrder, hostData);
    forall i | 0 <= i < |nodeOrder|
      ensures r[i] == NodeElement(nodeOrder[i], g.nodes[nodeOrder[i]].value, hostData)
    {
      NodeElementsAt(g, nodeOrder, hostData, i);
    }
  }

  /** After the nodes come the edges, in graphlib's edge order, each labelled with its type. */
  lemma ListingEdges(g: Graph, nodeOrder: seq<string>, edgeOrder: seq<EdgeKey>, hostData: bool)
    requires Labelled(g) && Enumerates(nodeOrder, g.nodes.Keys) && Enumerates(edgeOrder, g.edges.Keys)
    ensures var r := Listing(g, nodeOrder, edgeOrder, hostData);
      forall i :: |nodeOrder| <= i < |r| ==>
        && r[i] == EdgeElement(edgeOrder[i - |nodeOrder|], g.edges[edgeOrder[i - |nodeOrder|]])
        && IsEdgeElement(r[i])
        && r[i].caption == g.edges[edgeOrder[i - |nodeOrder|]].kind
  {
    var r := Listing(g, nodeOrder, edgeOrder, hostData);
    forall i | |nodeOrder| <= i < |r|
      ensures r[i] == EdgeElement(edgeOrder[i - |nodeOrder|], g.edges[edgeOrder[i - |nodeOrder|]])
    {
      EdgeElementsAt(g, edgeOrder, i - |nodeOrder|);
    }
  }

  /** A repetition-free listing of a set is as long as the set is large. */
  lemma {:induction false} EnumerationSize<K(!new)>(order: seq<K>, keys: set<K>)
    requires Enumerates(order, keys)
    ensures |order| == |keys|
  {
    if order != [] {
      var last := order[|order| - 1];
      var init := order[..|order| - 1];
      assert order == init + [last];
      assert Enumerates(init, keys - {last}) by {
        forall x ensures x in init <==> x in keys - {last} {
          if x in init {
            var i :| 0 <= i < |init| && init[i] == x;
            assert order[i] != order[|order| - 1];
          }
        }
      }
      EnumerationSize(init, keys - {last});
    }
  }

  // ------------------------------------------------------------ round trip

  /** The nodes that populating with a listing recreates with their label: those with a truthy type. */
  function TypedNodes(g: Graph, order: seq<string>): map<string, Option<NodeAttrs>>
    requires forall v :: v in order ==> v in g.nodes
  {
    map v | v in order && g.nodes[v].Some? && Truthy(g.nodes[v].value.kind) :: g.nodes[v]
  }

  /** Feeding the node elements to an empty mirror gives back the typed nodes, and no edges. */
  lemma {:induction false} NodePhase(g: Graph, order: seq<string>, hostData: bool)
    requires WellStored(g, hostData)
    requires forall v :: v in order ==> v in g.nodes && g.nodes[v].Some?
    ensures ApplyAll(Empty, NodeElements(g, order, hostData), hostData) == Graph(TypedNodes(g, order), map[])
  {
    if order != [] {
      var init, v := order[..|order| - 1], order[|order| - 1];
      NodePhase(g, init, hostData);
      var a := g.nodes[v].value;
      ApplyAllAppend(Empty, NodeElements(g, init, hostData), NodeElement(v, a, hostData), hostData);
      ApplyNodeElement(Graph(TypedNodes(g, init), map[]), v, a, hostData);
      TypedNodesStep(g, order);
    }
  }

  /** A listed node element stores back the label it was listed from, when its type is truthy. */
  lemma ApplyNodeElement(g: Graph, v: string, a: NodeAttrs, hostData: bool)
    requires a.parent == Undefined || Truthy(a.parent)
    requires !hostData ==> a.hosts == Undefined && a.vulns == Undefined
    ensures Apply(g, NodeElement(v, a, hostData), hostData) ==
      if Truthy(a.kind) then g.(nodes := g.nodes[v := Some(a)]) else g
  {
    if Truthy(a.kind) {
      assert StoredAttrs(NodeElement(v, a, hostData), hostData) == a;
    }
  }

  lemma TypedNodesStep(g: Graph, order: seq<string>)
    requires order != [] && forall v :: v in order ==> v in g.nodes && g.nodes[v].Some?
    ensures var init, v := order[..|order| - 1], order[|order| - 1];
      TypedNodes(g, order) ==
        if Truthy(g.nodes[v].value.kind) then TypedNodes(g, init)[v := g.nodes[v]] else TypedNodes(g, init)
  {
    var init, v := order[..|order| - 1], order[|order| - 1];
    assert order == init + [v];
  }

  /** The endpoints of the edges in `order`. */
  function Endpoints(order: seq<EdgeKey>): set<string> {
    if order == [] then {}
    else Endpoints(order[..|order| - 1]) + {order[|order| - 1].0, order[|order| - 1].1}
  }

  lemma {:induction false} EndpointsClosed(g: Graph, order: seq<EdgeKey>)
    requires Closed(g) && forall k :: k in order ==> k in g.edges
    ensures forall x :: x in Endpoints(order) ==> x in g.nodes
  {
    if order != [] {
      EndpointsClosed(g, order[..|order| - 1]);
    }
  }

  /** Feeding edge elements sets exactly those edges, and leaves the other edges alone. */
  lemma {:induction false} EdgePhaseEdges(g: Graph, order: seq<EdgeKey>, start: Graph, hostData: bool)
    requires forall k :: k in order ==> k in g.edges
    ensures var r := ApplyAll(start, EdgeElements(g, order), hostData);
      && (forall k :: k in r.edges <==> k in start.edges || k in order)
      && (forall k :: k in order ==> r.edges[k] == g.edges[k])
      && (forall k :: k in start.edges && k !in order ==> r.edges[k] == start.edges[k])
  {
    if order != [] {
      var init, k := order[..|order| - 1], order[|order| - 1];
      EdgePhaseEdges(g, init, start, hostData);
      var before := ApplyAll(start, EdgeElements(g, init), hostData);
      ApplyAllAppend(start, EdgeElements(g, init), EdgeElement(k, g.edges[k]), hostData);
      ApplyEdgeElement(before, k, g.edges[k], hostData);
      assert order == init + [k];
      EdgeStep(g.edges, start.edges, before.edges, init, k);
    }
  }

  /** One more edge element keeps the edge map in step with the keys fed so far. */
  lemma EdgeStep(edges: map<EdgeKey, EdgeAttrs>, startEdges: map<EdgeKey, EdgeAttrs>, before: map<EdgeKey, EdgeAttrs>, init: seq<EdgeKey>, k: EdgeKey)
    requires k in edges
    requires forall x :: x in before <==> x in startEdges || x in init
    requires forall x :: x in init ==> x in edges && before[x] == edges[x]
    requires forall x :: x in startEdges && x !in init ==> before[x] == startEdges[x]
    ensures var r, order := before[k := edges[k]], init + [k];
      && (forall x :: x in r <==> x in startEdges || x in order)
      && (forall x :: x in order ==> r[x] == edges[x])
      && (forall x :: x in startEdges && x !in order ==> r[x] == startEdges[x])
  {
    var order := init + [k];
    assert forall x :: x in order <==> x in init || x == k;
  }

  /** Feeding edge elements adds their missing endpoints without a label; present nodes keep theirs. */
  lemma {:induction false} EdgePhaseNodes(g: Graph, order: seq<EdgeKey>, start: Graph, hostData: bool)
    requires forall k :: k in order ==> k in g.edges
    ensures var r := ApplyAll(start, EdgeElements(g, order), hostData);
      && r.nodes.Keys == start.nodes.Keys + Endpoints(order)
      && (forall x :: x in start.nodes ==> r.nodes[x] == start.nodes[x])
      && (forall x :: x in r.nodes && x !in start.nodes ==> r.nodes[x] == None)
  {
    if order != [] {
      var init, k := order[..|order| - 1], order[|order| - 1];
      EdgePhaseNodes(g, init, start, hostData);
      var before := ApplyAll(start, EdgeElements(g, init), hostData);
      ApplyAllAppend(start, EdgeElements(g, init), EdgeElement(k, g.edges[k]), hostData);
      ApplyEdgeElement(before, k, g.edges[k], hostData);
      assert Endpoints(order) == Endpoints(init) + {k.0, k.1};
    }
  }

  /**
   * Populating an empty mirror with what `getVirtualNetworkData` lists
   * reproduces every edge and every node with a truthy type; a node with a
   * falsy type comes back only as an unlabelled endpoint, and nothing new
   * appears.
   */
  lemma RoundTrip(g: Graph, nodeOrder: seq<string>, edgeOrder: seq<EdgeKey>, hostData: bool)
    requires Closed(g) && WellStored(g, hostData) && Labelled(g)
    requires Enumerates(nodeOrder, g.nodes.Keys) && Enumerates(edgeOrder, g.edges.Keys)
    ensures var r := ApplyAll(Empty, Listing(g, nodeOrder, edgeOrder, hostData), hostData);
      && r.edges == g.edges
      && (forall v :: v in g.nodes && Truthy(g.nodes[v].value.kind) ==> v in r.nodes && r.nodes[v] == g.nodes[v])
      && (forall v :: v in r.nodes ==> v in g.nodes)
      && (forall v :: v in r.nodes && !Truthy(g.nodes[v].value.kind) ==> r.nodes[v] == None)
  {
    var nodesPart := NodeElements(g, nodeOrder, hostData);
    var edgesPart := EdgeElements(g, edgeOrder);
    ApplyAllConcat(Empty, nodesPart, edgesPart, hostData);
    NodePhase(g, nodeOrder, hostData);
    var start := Graph(TypedNodes(g, nodeOrder), map[]);
    assert ApplyAll(Empty, Listing(g, nodeOrder, edgeOrder, hostData), hostData) == ApplyAll(start, edgesPart, hostData);
    RoundTripEdges(g, nodeOrder, edgeOrder, hostData);
  }

  /** The edge half of the round trip, starting from the typed nodes. */
  lemma RoundTripEdges(g: Graph, nodeOrder: seq<string>, edgeOrder: seq<EdgeKey>, hostData: bool)
    requires Closed(g)
    requires forall v :: v in nodeOrder ==> v in g.nodes && g.nodes[v].Some?
    requires forall v :: v in g.nodes ==> v in nodeOrder
    requires Enumerates(edgeOrder, g.edges.Keys)
    ensures var r := ApplyAll(Graph(TypedNodes(g, nodeOrder), map[]), EdgeElements(g, edgeOrder), hostData);
      && r.edges == g.edges
      && (forall v :: v in g.nodes && Truthy(g.nodes[v].value.kind) ==> v in r.nodes && r.nodes[v] == g.nodes[v])
      && (forall v :: v in r.nodes ==> v in g.nodes)
      && (forall v :: v in r.nodes && !Truthy(g.nodes[v].value.kind) ==> r.nodes[v] == None)
  {
    var start := Graph(TypedNodes(g, nodeOrder), map[]);
    EdgePhaseEdges(g, edgeOrder, start, hostData);
    EdgePhaseNodes(g, edgeOrder, start, hostData);
    EndpointsClosed(g, edgeOrder);
    RoundTripFinish(g, nodeOrder, edgeOrder, ApplyAll(start, EdgeElements(g, edgeOrder), hostData));
  }

  /** The facts the two phases leave about the final graph `r` give the round trip. */
  lemma RoundTripFinish(g: Graph, nodeOrder: seq<string>, edgeOrder: seq<EdgeKey>, r: Graph)
    requires forall v :: v in nodeOrder ==> v in g.nodes && g.nodes[v].Some?
    requires forall v :: v in g.nodes ==> v in nodeOrder
    requires forall k :: k in edgeOrder <==> k in g.edges
    requires forall x :: x in Endpoints(edgeOrder) ==> x in g.nodes
    requires forall k :: k in r.edges <==> k in edgeOrder
    requires forall k :: k in edgeOrder ==> r.edges[k] == g.edges[k]
    requires r.nodes.Keys == TypedNodes(g, nodeOrder).Keys + Endpoints(edgeOrder)
    requires forall x :: x in TypedNodes(g, nodeOrder) ==> r.nodes[x] == TypedNodes(g, nodeOrder)[x]
    requires forall x :: x in r.nodes && x !in TypedNodes(g, nodeOrder) ==> r.nodes[x] == None
    ensures r.edges == g.edges
    ensures forall v :: v in g.nodes && Truthy(g.nodes[v].value.kind) ==> v in r.nodes && r.nodes[v] == g.nodes[v]
    ensures forall v :: v in r.nodes ==> v in g.nodes
    ensures forall v :: v in r.nodes && !Truthy(g.nodes[v].value.kind) ==> r.nodes[v] == None
  {
  }

  /** When every node has a truthy type, the round trip gives back the graph itself. */
  lemma RoundTripTyped(g: Graph, nodeOrder: seq<string>, edgeOrder: seq<EdgeKey>, hostData: bool)
    requires Closed(g) && WellStored(g, hostData) && Labelled(g)
    requires forall v :: v in g.nodes ==> Truthy(g.nodes[v].value.kind)
    requires Enumerates(nodeOrder, g.nodes.Keys) && Enumerates(edgeOrder, g.edges.Keys)
    ensures ApplyAll(Empty, Listing(g, nodeOrder, edgeOrder, hostData), hostData) == g
  {
    RoundTrip(g, nodeOrder, edgeOrder, hostData);
    var r := ApplyAll(Empty, Listing(g, nodeOrder, edgeOrder, hostData), hostData);
    assert r.nodes == g.nodes;
  }

  // ------------------------------------------------------------ collapse

  /** The edges that do not touch node `v`. */
  function EdgesAvoiding(edges: map<EdgeKey, EdgeAttrs>, v: string): (r: map<EdgeKey, EdgeAttrs>)
    ensures forall k :: k in r <==> k in edges && k.0 != v && k.1 != v
    ensures forall k :: k in r ==> r[k] == edges[k]
  {
    map k | k in edges && k.0 != v && k.1 != v :: edges[k]
  }

  /** graphlib `removeNode`: the node and every edge touching it go. */
  function RemoveNode(g: Graph, v: string): (r: Graph)
    ensures Closed(g) ==> Closed(r)
  {
    Graph(g.nodes - {v}, EdgesAvoiding(g.edges, v))
  }

  /** The handling of one element by the `forEach` of `collapseVirtualNetwork`. */
  function CollapseOne(g: Graph, e: ElementData): Graph {
    if IsEdgeElement(e) then
      var k := (ToStr(e.source), ToStr(e.target));
      if k in g.edges then g.(edges := g.edges - {k}) else g
    else if e.id != Undefined then
      if ToStr(e.id) in g.nodes then RemoveNode(g, ToStr(e.id)) else g
    else g
  }

  lemma CollapseAllStep(g: Graph, es: seq<ElementData>, i: nat)
    requires i < |es|
    ensures CollapseAll(g, es[..i + 1]) == CollapseOne(CollapseAll(g, es[..i]), es[i])
  {
    assert es[..i + 1][..i] == es[..i];
  }

  lemma CollapseOneKeeps(g: Graph, e: ElementData, hostData: bool)
    requires Closed(g) && WellStored(g, hostData)
    ensures Closed(CollapseOne(g, e)) && WellStored(CollapseOne(g, e), hostData)
  {
  }

  function CollapseAll(g: Graph, es: seq<ElementData>): Graph {
    if es == [] then g else CollapseOne(CollapseAll(g, es[..|es| - 1]), es[|es| - 1])
  }

  /** The node ids the elements of `es` ask to remove. */
  function NamedNodes(es: seq<ElementData>): set<string> {
    if es == [] then {}
    else
      var e := es[|es| - 1];
      NamedNodes(es[..|es| - 1]) + if !IsEdgeElement(e) && e.id != Undefined then {ToStr(e.id)} else {}
  }

  /** The edges the elements of `es` ask to remove. */
  function NamedEdges(es: seq<ElementData>): set<EdgeKey> {
    if es == [] then {}
    else
      var e := es[|es| - 1];
      NamedEdges(es[..|es| - 1]) + if IsEdgeElement(e) then {(ToStr(e.source), ToStr(e.target))} else {}
  }

  /**
   * Collapsing removes exactly the listed nodes, the listed edges and the
   * edges touching a listed node; everything else keeps its label.
   */
  lemma {:induction false} CollapseAllEffect(g: Graph, es: seq<ElementData>)
    requires Closed(g)
    ensures var r := CollapseAll(g, es);
      && r.nodes == (map v | v in g.nodes && v !in NamedNodes(es) :: g.nodes[v])
      && r.edges == (map k | k in g.edges && k !in NamedEdges(es) && k.0 !in NamedNodes(es) && k.1 !in NamedNodes(es) :: g.edges[k])
  {
    if es != [] {
      var init, e := es[..|es| - 1], es[|es| - 1];
      CollapseAllEffect(g, init);
      var prev := CollapseAll(g, init);
      var r := CollapseAll(g, es);
      if IsEdgeElement(e) {
        var k := (ToStr(e.source), ToStr(e.target));
        assert NamedEdges(es) == NamedEdges(init) + {k};
        assert NamedNodes(es) == NamedNodes(init);
      } else if e.id != Undefined {
        var v := ToStr(e.id);
        assert NamedEdges(es) == NamedEdges(init);
        assert NamedNodes(es) == NamedNodes(init) + {v};
        if v !in prev.nodes {
          assert forall k :: k in prev.edges ==> k.0 != v && k.1 != v;
        }
      } else {
        assert NamedEdges(es) == NamedEdges(init);
        assert NamedNodes(es) == NamedNodes(init);
      }
    }
  }

  /** Listing only elements the mirror does not hold changes nothing. */
  lemma CollapseAbsent(g: Graph, es: seq<ElementData>)
    requires Closed(g)
    requires forall v :: v in NamedNodes(es) ==> v !in g.nodes
    requires forall k :: k in NamedEdges(es) ==> k !in g.edges
    ensures CollapseAll(g, es) == g
  {
    CollapseAllEffect(g, es);
    var r := CollapseAll(g, es);
    assert r.nodes == g.nodes;
    assert r.edges == g.edges;
  }

  /** The `nodes().forEach` loop of `getVirtualNetworkData`; a node without a label makes it throw. */
  method ListNodes(g: Graph, order: seq<string>, hostData: bool) returns (r: Result<seq<ElementData>, string>)
    requires forall v :: v in order ==> v in g.nodes
    ensures r.Failure? <==> exists v :: v in order && g.nodes[v].None?
    ensures r.Success? ==> r.value == NodeElements(g, order, hostData)
  {
    var elements: seq<ElementData> := [];
    var i := 0;
    while i < |order|
      invariant 0 <= i <= |order|
      invariant forall j :: 0 <= j < i ==> g.nodes[order[j]].Some?
      invariant elements == NodeElements(g, order[..i], hostData)
    {
      var attrs := g.nodes[order[i]];
      if attrs.None? {
        return Failure("TypeError: Cannot read properties of undefined (reading 'label')");
      }
      elements := elements + [NodeElement(order[i], attrs.value, hostData)];
      NodeElementsPrefix(g, order, hostData, i);
      i := i + 1;
    }
    assert order[..i] == order;
    r := Success(elements);
  }

  /** The `edges().forEach` loop of `getVirtualNetworkData`. */
  method ListEdges(g: Graph, order: seq<EdgeKey>) returns (r: seq<ElementData>)
    requires forall k :: k in order ==> k in g.edges
    ensures r == EdgeElements(g, order)
  {
    r := [];
    var j := 0;
    while j < |order|
      invariant 0 <= j <= |order|
      invariant r == EdgeElements(g, order[..j])
    {
      var k := order[j];
      r := r + [EdgeElement(k, g.edges[k])];
      EdgeElementsPrefix(g, order, j);
      j := j + 1;
    }
    assert order[..j] == order;
  }

  // ------------------------------------------------------------ the mirror

  /** The global `virtualNetwork`. */
  class Mirror {
    var nodes: map<string, Option<NodeAttrs>>
    var edges: map<EdgeKey, EdgeAttrs>
    /** True for the D3 server, whose node labels also carry `hosts` and `vulns`. */
    const hostData: bool

    function Snapshot(): Graph
      reads this
    {
      Graph(nodes, edges)
    }

    ghost predicate Valid()
      reads this
    {
      Closed(Snapshot()) && WellStored(Snapshot(), hostData)
    }

    /** `new graphlib.Graph()`. */
    constructor(hostData: bool)
      ensures Valid() && Snapshot() == Empty && this.hostData == hostData
    {
      nodes := map[];
      edges := map[];
      this.hostData := hostData;
    }

    /** `populateVirtualNetwork(data)`: a non-array is refused and the mirror left alone. */
    method Populate(data: Input)
      requires Valid()
      modifies this
      ensures Valid()
      ensures Snapshot() == if data.Elements? then ApplyAll(old(Snapshot()), data.items, hostData) else old(Snapshot())
    {
      if data.Elements? {
        var items := data.items;
        var i := 0;
        while i < |items|
          invariant 0 <= i <= |items|
          invariant Snapshot() == ApplyAll(old(Snapshot()), items[..i], hostData)
        {
          var e := items[i];
          if IsEdgeElement(e) {
            var v, w := ToStr(e.source), ToStr(e.target);
            if v !in nodes {
              nodes := nodes[v := None];
            }
            if w !in nodes {
              nodes := nodes[w := None];
            }
            edges := edges[(v, w) := EdgeAttrs(ToStr(e.id), e.caption)];
          } else if e.id != Undefined && Truthy(e.kind) {
            nodes := nodes[ToStr(e.id) := Some(StoredAttrs(e, hostData))];
          }
          assert items[..i + 1][..i] == items[..i];
          i := i + 1;
        }
        assert items[..i] == items;
        ApplyAllValid(old(Snapshot()), items, hostData);
      }
    }

    /** `collapseVirtualNetwork(expandedData)`. */
    method Collapse(expandedData: seq<ElementData>)
      requires Valid()
      modifies this
      ensures Valid()
      ensures Snapshot() == CollapseAll(old(Snapshot()), expandedData)
    {
      ghost var start := Snapshot();
      var i := 0;
      while i < |expandedData|
        invariant 0 <= i <= |expandedData|
        invariant Valid()
        invariant Snapshot() == CollapseAll(start, expandedData[..i])
      {
        var e := expandedData[i];
        ghost var before := Snapshot();
        if IsEdgeElement(e) {
          var k := (ToStr(e.source), ToStr(e.target));
          if k in edges {
            edges := edges - {k};
          }
        } else if e.id != Undefined {
          var v := ToStr(e.id);
          if v in nodes {
            nodes := nodes - {v};
            edges := EdgesAvoiding(edges, v);
          }
        }
        assert Snapshot() == CollapseOne(before, e);
        CollapseOneKeeps(before, e, hostData);
        CollapseAllStep(start, expandedData, i);
        i := i + 1;
      }
      assert expandedData[..i] == expandedData;
    }

    /**
     * `getVirtualNetworkData()`, given the orders in which graphlib lists the
     * nodes and the edges. Reading the label of a node that has none throws.
     */
    method GetData(nodeOrder: seq<string>, edgeOrder: seq<EdgeKey>) returns (r: Result<seq<ElementData>, string>)
      requires Enumerates(nodeOrder, nodes.Keys) && Enumerates(edgeOrder, edges.Keys)
      ensures r.Failure? <==> !Labelled(Snapshot())
      ensures r.Success? ==> Labelled(Snapshot()) && r.value == Listing(Snapshot(), nodeOrder, edgeOrder, hostData)
    {
      var listed := ListNodes(Snapshot(), nodeOrder, hostData);
      if listed.Failure? {
        return Failure(listed.error);
      }
      var edgeElements := ListEdges(Snapshot(), edgeOrder);
      r := Success(listed.value + edgeElements);
    }
  }
}
