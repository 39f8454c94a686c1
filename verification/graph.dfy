/**
 * The graph store of the view model as values.
 *
 * Every entity the view model ever creates (node, dummy node, edge, edge segment) gets
 * a place in an append-only arena; its index, a `Handle`, stands for the object
 * reference of the original, so identity is by handle and not by id (a dummy node and
 * both segments that replace an edge reuse that edge's id). `nodes` and `edges` are the
 * ordered lists the view model exposes, as lists of handles; `selection` is the ordered
 * list of selected ids. Each operation of the view model is a function from the old
 * graph to the new one; the class in view_model.dfy performs them in place.
 */
module Graphs {
  import opened Options
  import opened Seqs
  import opened Selection
  import Viewport

  /** An object reference: the position of the entity in the arena. */
  type Handle = int

  /** A position supplied for a new node (the original picks it with `Math.random()`). */
  datatype Point = Point(x: real, y: real)

  /**
   * A `ViewNode` (or `DummyNode`) with its geometry, or a `ViewEdge` (or `EdgeSegment`,
   * which remembers the edge it replaces in `segmentOf`) with its two endpoints.
   */
  datatype Element =
    | Node(id: string, typeTag: string, name: string, x: real, y: real, width: real, height: real, shape: string)
    | Edge(id: string, typeTag: string, name: string, source: Handle, target: Handle, segmentOf: Option<Handle>)

  datatype Graph = Graph(arena: seq<Element>, nodes: seq<Handle>, edges: seq<Handle>, selection: seq<string>)

  const DefaultWidth: real := 40.0
  const DefaultHeight: real := 30.0
  const DummySize: real := 20.0
  const DummyShape: string := "circle"

  /** The graph of a new view model. */
  const Empty: Graph := Graph([], [], [], [])

  // ---------------------------------------------------------------- invariants

  /**
   * The model's structural invariant: handles are in range, `nodes` holds nodes and
   * `edges` holds edges, neither lists an object twice, every edge in the arena ends on
   * nodes, and a segment names the edge it replaced.
   */
  predicate WellFormed(g: Graph) {
    && (forall i :: 0 <= i < |g.arena| ==> EndsOnNodes(g.arena, i))
    && (forall h :: h in g.nodes ==> 0 <= h < |g.arena| && g.arena[h].Node?)
    && (forall h :: h in g.edges ==> 0 <= h < |g.arena| && g.arena[h].Edge?)
    && NoDups(g.nodes) && NoDups(g.edges)
  }

  predicate EndsOnNodes(arena: seq<Element>, i: nat)
    requires 0 <= i < |arena|
  {
    arena[i].Edge? ==>
      && 0 <= arena[i].source < |arena| && arena[arena[i].source].Node?
      && 0 <= arena[i].target < |arena| && arena[arena[i].target].Node?
      && (arena[i].segmentOf.Some? ==>
            0 <= arena[i].segmentOf.value < |arena| && arena[arena[i].segmentOf.value].Edge?)
  }

  /** Every listed edge ends on listed nodes. */
  predicate Attached(g: Graph) {
    forall e :: e in g.edges ==>
      0 <= e < |g.arena| && g.arena[e].Edge? && g.arena[e].source in g.nodes && g.arena[e].target in g.nodes
  }

  /** A valid endpoint for a new edge: a listed node, or an edge whose own endpoints are listed. */
  predicate Anchored(g: Graph, h: Handle) {
    && 0 <= h < |g.arena|
    && (h in g.nodes || (g.arena[h].Edge? && g.arena[h].source in g.nodes && g.arena[h].target in g.nodes))
  }

  // ---------------------------------------------------------------- constructors

  /** `new ViewNode(parent, type, name, id)`: 40 by 30, shaped after its type. */
  function NewNode(typeTag: string, name: string, id: string, at: Point): Element {
    Node(id, typeTag, name, at.x, at.y, DefaultWidth, DefaultHeight, typeTag)
  }

  /** `new DummyNode(parent, edge)`: the edge's id, type and name; a 20 by 20 circle. */
  function DummyFor(edge: Element, at: Point): Element
    requires edge.Edge?
  {
    Node(edge.id, edge.typeTag, edge.name, at.x, at.y, DummySize, DummySize, DummyShape)
  }

  /** `new EdgeSegment(parent, edge, source, target)`: the edge's id and type, an empty name. */
  function SegmentFor(edge: Element, original: Handle, source: Handle, target: Handle): Element
    requires edge.Edge?
  {
    Edge(edge.id, edge.typeTag, "", source, target, Some(original))
  }

  // ---------------------------------------------------------------- operations

  /** `addNode(type, name, id)`: append a new node; the result is its handle. */
  function AddNode(g: Graph, typeTag: string, name: string, id: string, at: Point): (Graph, Handle) {
    var h := |g.arena|;
    (g.(arena := g.arena + [NewNode(typeTag, name, id, at)], nodes := g.nodes + [h]), h)
  }

  /**
   * One half of `addEdge`: when the endpoint is an edge, push a dummy node, push the
   * segments source-to-dummy and dummy-to-target, splice the edge out of `edges` (at
   * `indexOf`, which is -1 when it is not there), and use the dummy as the endpoint.
   */
  function Detach(g: Graph, end: Handle, at: Point): (Graph, Handle)
    requires 0 <= end < |g.arena|
  {
    var e := g.arena[end];
    if e.Node? then (g, end)
    else
      var d := |g.arena|;
      var arena := g.arena + [DummyFor(e, at), SegmentFor(e, end, e.source, d), SegmentFor(e, end, d, e.target)];
      (g.(arena := arena, nodes := g.nodes + [d], edges := Remove(g.edges + [d + 1, d + 2], end)), d)
  }

  /**
   * `addEdge(type, source, target, name, id)`: the transform is applied to the source
   * and then, independently, to the target; the new edge is pushed last. The result is
   * the new graph and the new edge's handle.
   */
  function Connect(g: Graph, typeTag: string, source: Handle, target: Handle, name: string, id: string,
                   sourceAt: Point, targetAt: Point): (Graph, Handle)
    requires 0 <= source < |g.arena| && 0 <= target < |g.arena|
  {
    var (g1, s) := Detach(g, source, sourceAt);
    var (g2, t) := Detach(g1, target, targetAt);
    var r := |g2.arena|;
    (g2.(arena := g2.arena + [Edge(id, typeTag, name, s, t, None)], edges := g2.edges + [r]), r)
  }

  /** The edge starts or ends at `h`. */
  predicate Touches(e: Element, h: Handle) {
    e.Edge? && (e.source == h || e.target == h)
  }

  /** `edges.filter((edge) => edge.source === node || edge.target === node)`. */
  function Touching(arena: seq<Element>, es: seq<Handle>, h: Handle): (t: seq<Handle>)
    requires forall e :: e in es ==> 0 <= e < |arena|
    ensures forall e :: e in t <==> e in es && Touches(arena[e], h)
    ensures |t| <= |es|
  {
    if es == [] then []
    else
      assert es[0] in es;
      assert forall e :: e in es[1..] ==> e in es;
      (if Touches(arena[es[0]], h) then [es[0]] else []) + Touching(arena, es[1..], h)
  }

  /** The ids of a list of edges. */
  function IdsOf(arena: seq<Element>, es: seq<Handle>): set<string> {
    set e | e in es && 0 <= e < |arena| :: arena[e].id
  }

  /** `ViewEdge.delete()`: when listed, deselect its id and splice it out of `edges`. */
  function DeleteEdge(g: Graph, e: Handle): Graph
    requires 0 <= e < |g.arena|
  {
    if e in g.edges then
      g.(selection := Deselected(g.selection, g.arena[e].id), edges := Remove(g.edges, e))
    else
      g
  }

  /** `forEach((edge) => edge.delete())`: delete the edges one after the other, in order. */
  function DeleteAll(g: Graph, es: seq<Handle>): (g': Graph)
    requires forall k :: 0 <= k < |es| ==> 0 <= es[k] < |g.arena|
    ensures g'.arena == g.arena && g'.nodes == g.nodes
    decreases |es|
  {
    if es == [] then g else DeleteAll(DeleteEdge(g, es[0]), es[1..])
  }

  /**
   * `ViewNode.delete()`: when listed, delete every edge that touches the node (each
   * deselecting its id), deselect the node's id and splice the node out of `nodes`.
   */
  function DeleteNode(g: Graph, h: Handle): Graph
    requires WellFormed(g) && 0 <= h < |g.arena|
  {
    if h in g.nodes then
      var t := Touching(g.arena, g.edges, h);
      assert forall k :: 0 <= k < |t| ==> t[k] in t;
      var g1 := DeleteAll(g, t);
      g1.(selection := Deselected(g1.selection, g.arena[h].id), nodes := Remove(g1.nodes, h))
    else
      g
  }

  /** `setPosition(x, y)` on a node. */
  function Moved(g: Graph, h: Handle, x: real, y: real): Graph
    requires 0 <= h < |g.arena| && g.arena[h].Node?
  {
    g.(arena := g.arena[h := g.arena[h].(x := x, y := y)])
  }

  /** `setSize(width, height)` on a node. */
  function Resized(g: Graph, h: Handle, width: real, height: real): Graph
    requires 0 <= h < |g.arena| && g.arena[h].Node?
  {
    g.(arena := g.arena[h := g.arena[h].(width := width, height := height)])
  }

  /** The rectangles of the listed nodes, in order: what the bounding box is reduced over. */
  function Boxes(arena: seq<Element>, hs: seq<Handle>): (bs: seq<Viewport.Box>)
    requires forall h :: h in hs ==> 0 <= h < |arena| && arena[h].Node?
    ensures |bs| == |hs|
    ensures forall i :: 0 <= i < |hs| ==>
      && hs[i] in hs
      && bs[i] == Viewport.Box(arena[hs[i]].x, arena[hs[i]].y, arena[hs[i]].width, arena[hs[i]].height)
  {
    if hs == [] then []
    else
      assert hs[0] in hs;
      assert forall h :: h in hs[1..] ==> h in hs;
      var n := arena[hs[0]];
      [Viewport.Box(n.x, n.y, n.width, n.height)] + Boxes(arena, hs[1..])
  }

  // ---------------------------------------------------------------- addNode

  /** `addNode` appends exactly one new node at the end of `nodes`; nothing else listed changes. */
  lemma AddNodeAppends(g: Graph, typeTag: string, name: string, id: string, at: Point)
    requires WellFormed(g)
    ensures var (g', h) := AddNode(g, typeTag, name, id, at);
      && h !in g.nodes && g'.nodes == g.nodes + [h]
      && g'.arena[h] == Node(id, typeTag, name, at.x, at.y, 40.0, 30.0, typeTag)
      && g'.edges == g.edges && g'.selection == g.selection
      && (forall k :: k in g.nodes || k in g.edges ==> g'.arena[k] == g.arena[k])
      && WellFormed(g') && (Attached(g) ==> Attached(g'))
  {
    var (g', h) := AddNode(g, typeTag, name, id, at);
    AppendFresh(g.nodes, h);
    assert forall i :: 0 <= i < |g.arena| ==> g'.arena[i] == g.arena[i];
    assert forall i :: 0 <= i < |g'.arena| ==> EndsOnNodes(g'.arena, i) by {
      forall i | 0 <= i < |g'.arena| ensures EndsOnNodes(g'.arena, i) {
        if 0 <= i < |g.arena| { assert EndsOnNodes(g.arena, i); }
      }
    }
  }

  // ---------------------------------------------------------------- the edge-to-edge transform

  /** A node endpoint is used as it is. */
  lemma DetachNode(g: Graph, end: Handle, at: Point)
    requires 0 <= end < |g.arena| && g.arena[end].Node?
    ensures Detach(g, end, at) == (g, end)
  {
  }

  /**
   * An edge endpoint that is listed in `edges`: it is replaced by a dummy node and two
   * segments, and the dummy becomes the endpoint.
   */
  lemma DetachListedEdge(g: Graph, end: Handle, at: Point)
    requires WellFormed(g) && end in g.edges
    ensures var (g', d) := Detach(g, end, at); var e := g.arena[end];
      && d == |g.arena| && |g'.arena| == d + 3
      && g'.arena == g.arena + [DummyFor(e, at), SegmentFor(e, end, e.source, d), SegmentFor(e, end, d, e.target)]
      && g'.nodes == g.nodes + [d]
      && g'.edges == Except(g.edges, {end}) + [d + 1, d + 2]
      && end !in g'.edges && |g'.edges| == |g.edges| + 1
      && g'.selection == g.selection
      && WellFormed(g')
  {
    DetachListedEdgeAt(g, end, at, |g.arena|);
    DetachWellFormed(g, end, at);
  }

  /**
   * `DetachListedEdge` as one equation, with the facts about `edges` it needs; `d` names
   * the arena's length, which becomes the dummy's handle.
   */
  lemma DetachListedEdgeAt(g: Graph, end: Handle, at: Point, d: Handle)
    requires 0 <= end < |g.arena| && g.arena[end].Edge? && NoDups(g.edges) && end in g.edges
    requires d == |g.arena|
    ensures var e := g.arena[end];
      && Detach(g, end, at)
         == (g.(arena := g.arena + [DummyFor(e, at), SegmentFor(e, end, e.source, d), SegmentFor(e, end, d, e.target)],
                nodes := g.nodes + [d],
                edges := Except(g.edges, {end}) + [d + 1, d + 2]), d)
      && end !in Except(g.edges, {end}) + [d + 1, d + 2]
      && |Except(g.edges, {end})| == |g.edges| - 1
  {
    RemoveBeforeAppended(g.edges, [d + 1, d + 2], end);
  }

  /**
   * An edge endpoint that is NOT listed in `edges`: `indexOf` gives -1 and `splice(-1, 1)`
   * drops the segment pushed last, so only the first segment is added.
   */
  lemma DetachUnlistedEdge(g: Graph, end: Handle, at: Point)
    requires WellFormed(g) && 0 <= end < |g.arena| && g.arena[end].Edge? && end !in g.edges
    ensures var (g', d) := Detach(g, end, at);
      && d == |g.arena| && g'.nodes == g.nodes + [d]
      && g'.edges == g.edges + [d + 1]
      && WellFormed(g')
  {
    var d := |g.arena|;
    RemoveAbsent(g.edges + [d + 1, d + 2], end);
    assert (g.edges + [d + 1, d + 2])[..|g.edges| + 1] == g.edges + [d + 1];
    DetachWellFormed(g, end, at);
  }

  lemma DetachWellFormed(g: Graph, end: Handle, at: Point)
    requires WellFormed(g) && 0 <= end < |g.arena|
    ensures var (g', d) := Detach(g, end, at);
      && WellFormed(g') && 0 <= d < |g'.arena| && g'.arena[d].Node?
      && |g'.arena| >= |g.arena| && g'.arena[..|g.arena|] == g.arena
      && (forall k :: k in g.nodes ==> k in g'.nodes)
      && g'.selection == g.selection
  {
    var e := g.arena[end];
    if e.Edge? {
      var (g', d) := Detach(g, end, at);
      DetachArena(g, end, at);
      DetachLists(g, end, at);
    }
  }

  lemma DetachArena(g: Graph, end: Handle, at: Point)
    requires WellFormed(g) && 0 <= end < |g.arena| && g.arena[end].Edge?
    ensures var (g', d) := Detach(g, end, at);
      forall i :: 0 <= i < |g'.arena| ==> EndsOnNodes(g'.arena, i)
  {
    var (g', d) := Detach(g, end, at);
    assert EndsOnNodes(g.arena, end);
    forall i | 0 <= i < |g'.arena| ensures EndsOnNodes(g'.arena, i) {
      if 0 <= i < |g.arena| { assert EndsOnNodes(g.arena, i); }
    }
  }

  lemma DetachLists(g: Graph, end: Handle, at: Point)
    requires WellFormed(g) && 0 <= end < |g.arena| && g.arena[end].Edge?
    ensures var (g', d) := Detach(g, end, at);
      && (forall h :: h in g'.nodes ==> 0 <= h < |g'.arena| && g'.arena[h].Node?)
      && (forall h :: h in g'.edges ==> 0 <= h < |g'.arena| && g'.arena[h].Edge?)
      && NoDups(g'.nodes) && NoDups(g'.edges)
  {
    var (g', d) := Detach(g, end, at);
    AppendFresh(g.nodes, d);
    assert forall h :: h in g'.nodes ==> h in g.nodes || h == d;
    DetachEdgeList(g.arena, g.edges, end, g'.arena);
  }

  /** The edge list after the transform: at most the old edges and the two segments, each once. */
  lemma DetachEdgeList(arena: seq<Element>, edges: seq<Handle>, end: Handle, arena': seq<Element>)
    requires forall h :: h in edges ==> 0 <= h < |arena| && arena[h].Edge?
    requires NoDups(edges)
    requires |arena'| == |arena| + 3 && arena'[..|arena|] == arena
    requires arena'[|arena| + 1].Edge? && arena'[|arena| + 2].Edge?
    ensures var r := Remove(edges + [|arena| + 1, |arena| + 2], end);
      && NoDups(r) && forall h :: h in r ==> 0 <= h < |arena'| && arena'[h].Edge?
  {
    var d := |arena|;
    var pushed := edges + [d + 1, d + 2];
    assert NoDups(pushed) by {
      AppendFresh(edges, d + 1);
      AppendFresh(edges + [d + 1], d + 2);
      assert edges + [d + 1] + [d + 2] == pushed;
    }
    RemoveKeepsNoDups(pushed, end);
    forall h | h in pushed ensures 0 <= h < |arena'| && arena'[h].Edge? {
      if h in edges {
        assert arena'[h] == arena'[..|arena|][h];
      }
    }
  }

  /** The two endpoints are used as they are when neither is an edge. */
  lemma ConnectNodes(g: Graph, typeTag: string, source: Handle, target: Handle, name: string, id: string,
                     sourceAt: Point, targetAt: Point)
    requires 0 <= source < |g.arena| && 0 <= target < |g.arena| && g.arena[source].Node? && g.arena[target].Node?
    ensures var (g', r) := Connect(g, typeTag, source, target, name, id, sourceAt, targetAt);
      && r == |g.arena| && g'.arena == g.arena + [Edge(id, typeTag, name, source, target, None)]
      && g'.nodes == g.nodes && g'.edges == g.edges + [r] && g'.selection == g.selection
  {
  }

  /**
   * Connecting a node to a listed edge `target`: the target leaves `edges`, one dummy
   * node is appended to `nodes`, the two segments and the new edge are appended to
   * `edges` in that order, and the new edge ends at the dummy.
   */
  lemma ConnectToEdge(g: Graph, typeTag: string, source: Handle, target: Handle, name: string, id: string,
                      sourceAt: Point, targetAt: Point)
    requires WellFormed(g) && 0 <= source < |g.arena| && g.arena[source].Node? && target in g.edges
    ensures var (g', r) := Connect(g, typeTag, source, target, name, id, sourceAt, targetAt);
            var e, d := g.arena[target], |g.arena|;
      && g'.nodes == g.nodes + [d]
      && g'.arena[d] == Node(e.id, e.typeTag, e.name, targetAt.x, targetAt.y, 20.0, 20.0, "circle")
      && g'.arena[d + 1] == Edge(e.id, e.typeTag, "", e.source, d, Some(target))
      && g'.arena[d + 2] == Edge(e.id, e.typeTag, "", d, e.target, Some(target))
      && r == d + 3 && g'.arena[r] == Edge(id, typeTag, name, source, d, None)
      && g'.edges == Except(g.edges, {target}) + [d + 1, d + 2, r]
      && target !in g'.edges
      && |g'.edges| == |g.edges| - 1 + 2 + 1
      && g'.selection == g.selection
  {
    DetachNode(g, source, sourceAt);
    DetachListedEdgeAt(g, target, targetAt, |g.arena|);
  }

  /** Connecting a listed edge `source` to a node: the mirror image of `ConnectToEdge`. */
  lemma ConnectFromEdge(g: Graph, typeTag: string, source: Handle, target: Handle, name: string, id: string,
                        sourceAt: Point, targetAt: Point)
    requires WellFormed(g) && source in g.edges && 0 <= target < |g.arena| && g.arena[target].Node?
    ensures var (g', r) := Connect(g, typeTag, source, target, name, id, sourceAt, targetAt);
            var e, d := g.arena[source], |g.arena|;
      && g'.nodes == g.nodes + [d]
      && g'.arena[d] == Node(e.id, e.typeTag, e.name, sourceAt.x, sourceAt.y, 20.0, 20.0, "circle")
      && g'.arena[d + 1] == Edge(e.id, e.typeTag, "", e.source, d, Some(source))
      && g'.arena[d + 2] == Edge(e.id, e.typeTag, "", d, e.target, Some(source))
      && r == d + 3 && g'.arena[r] == Edge(id, typeTag, name, d, target, None)
      && g'.edges == Except(g.edges, {source}) + [d + 1, d + 2, r]
      && source !in g'.edges
      && |g'.edges| == |g.edges| - 1 + 2 + 1
      && g'.selection == g.selection
  {
    DetachListedEdgeAt(g, source, sourceAt, |g.arena|);
    var (g1, d) := Detach(g, source, sourceAt);
    assert g1.arena[target] == g.arena[target];
    DetachNode(g1, target, targetAt);
  }

  /**
   * Connecting two distinct listed edges: both leave `edges`, and the four segments and
   * the new edge are appended in the order they are pushed. `d` and `d'` are the
   * handles of the two dummies.
   */
  lemma ConnectEdges(g: Graph, typeTag: string, source: Handle, target: Handle, name: string, id: string,
                     sourceAt: Point, targetAt: Point)
    requires WellFormed(g) && source in g.edges && target in g.edges && source != target
    ensures Connect(g, typeTag, source, target, name, id, sourceAt, targetAt).0.edges
         == Except(g.edges, {source, target})
            + [|g.arena| + 1, |g.arena| + 2, |g.arena| + 4, |g.arena| + 5, |g.arena| + 6]
    ensures var c := Connect(g, typeTag, source, target, name, id, sourceAt, targetAt);
      source !in c.0.edges && target !in c.0.edges && |c.0.edges| == |g.edges| + 3
  {
    var d := |g.arena|;
    var g1 := Detach(g, source, sourceAt).0;
    var g2 := Detach(g1, target, targetAt).0;
    var kept := Except(g.edges, {source, target});
    assert g2.edges == kept + [d + 1, d + 2] + [d + 4, d + 5] && |g2.arena| == d + 6 by {
      ConnectTwoEdges(g, source, target, sourceAt, targetAt);
      TwoRemovals(g.edges, source, target, [d + 1, d + 2]);
    }
    ConnectUnfold(g, typeTag, source, target, name, id, sourceAt, targetAt);
    assert source !in kept && target !in kept && |kept| == |g.edges| - 2 by {
      TwoRemovals(g.edges, source, target, [d + 1, d + 2]);
    }
    assert kept + [d + 1, d + 2] + [d + 4, d + 5] + [d + 6] == kept + [d + 1, d + 2, d + 4, d + 5, d + 6];
  }

  /** `Connect` as its two halves followed by the push of the new edge. */
  lemma ConnectUnfold(g: Graph, typeTag: string, source: Handle, target: Handle, name: string, id: string,
                      sourceAt: Point, targetAt: Point)
    requires 0 <= source < |g.arena| && 0 <= target < |g.arena|
    ensures var g1 := Detach(g, source, sourceAt).0; var g2 := Detach(g1, target, targetAt).0;
            var c := Connect(g, typeTag, source, target, name, id, sourceAt, targetAt);
      && c.1 == |g2.arena| && c.0.edges == g2.edges + [|g2.arena|]
      && c.0.nodes == g2.nodes && c.0.selection == g2.selection
  {
  }

  /**
   * Connecting two distinct listed edges: a dummy node for each joins `nodes`, and the
   * new edge runs from the first dummy to the second.
   */
  lemma ConnectEdgesDummies(g: Graph, typeTag: string, source: Handle, target: Handle, name: string, id: string,
                            sourceAt: Point, targetAt: Point)
    requires WellFormed(g) && source in g.edges && target in g.edges && source != target
    ensures var (g', r) := Connect(g, typeTag, source, target, name, id, sourceAt, targetAt);
            var d, d' := |g.arena|, |g.arena| + 3;
      && g'.nodes == g.nodes + [d] + [d']
      && r == d' + 3 && g'.arena[r] == Edge(id, typeTag, name, d, d', None)
      && g'.selection == g.selection
  {
    ConnectTwoEdges(g, source, target, sourceAt, targetAt);
  }

  /** The two halves of `addEdge` between two distinct listed edges, each as one equation. */
  lemma ConnectTwoEdges(g: Graph, source: Handle, target: Handle, sourceAt: Point, targetAt: Point)
    requires WellFormed(g) && source in g.edges && target in g.edges && source != target
    ensures var d := |g.arena|; var g1 := Detach(g, source, sourceAt).0;
      && Detach(g, source, sourceAt).1 == d
      && |g1.arena| == d + 3 && g1.arena[target] == g.arena[target]
      && g1.nodes == g.nodes + [d]
      && g1.edges == Except(g.edges, {source}) + [d + 1, d + 2]
      && g1.selection == g.selection
      && Detach(g1, target, targetAt).1 == d + 3
      && |Detach(g1, target, targetAt).0.arena| == d + 6
      && Detach(g1, target, targetAt).0.nodes == g1.nodes + [d + 3]
      && Detach(g1, target, targetAt).0.edges == Except(g1.edges, {target}) + [d + 3 + 1, d + 3 + 2]
      && Detach(g1, target, targetAt).0.selection == g.selection
  {
    var d := |g.arena|;
    DetachListedEdgeAt(g, source, sourceAt, d);
    SegmentsFresh(g.edges, source, d);
    var g1 := Detach(g, source, sourceAt).0;
    assert g1.arena[target] == g.arena[target];
    DetachListedEdgeAt(g1, target, targetAt, d + 3);
  }

  /** The segment handles pushed after the arena's end are new to the edge list. */
  lemma SegmentsFresh(edges: seq<Handle>, end: Handle, d: Handle)
    requires NoDups(edges) && forall h :: h in edges ==> h < d
    ensures NoDups(Except(edges, {end}) + [d + 1, d + 2])
  {
    ExceptNoDups(edges, {end});
    AppendFresh(Except(edges, {end}), d + 1);
    AppendFresh(Except(edges, {end}) + [d + 1], d + 2);
    assert Except(edges, {end}) + [d + 1] + [d + 2] == Except(edges, {end}) + [d + 1, d + 2];
  }

  /** Removing two distinct present elements, with other elements appended in between. */
  lemma TwoRemovals(s: seq<Handle>, a: Handle, b: Handle, u: seq<Handle>)
    requires NoDups(s) && a in s && b in s && a != b && b !in u
    ensures Except(Except(s, {a}) + u, {b}) == Except(s, {a, b}) + u
    ensures |Except(s, {a, b})| == |s| - 2
  {
    ExceptAppend(Except(s, {a}), u, {b});
    ExceptNothing(u, {b});
    ExceptExcept(s, {a}, {b});
    assert {a} + {b} == {a, b};
    RemoveIsExcept(s, a);
    RemoveKeepsNoDups(s, a);
    ExceptNoDups(s, {a});
    RemoveIsExcept(Except(s, {a}), b);
    RemoveKeepsNoDups(Except(s, {a}), b);
  }

  /**
   * Connecting a listed edge to itself, as written: the source half removes the edge, so
   * the target half finds it absent, `indexOf` gives -1 and its second segment (from the
   * second dummy to the old target) is dropped instead. Three segments and the new edge
   * remain, and the new edge runs from the first dummy to the second.
   */
  lemma ConnectEdgeToItself(g: Graph, typeTag: string, e: Handle, name: string, id: string,
                            sourceAt: Point, targetAt: Point)
    requires WellFormed(g) && e in g.edges
    ensures var (g', r) := Connect(g, typeTag, e, e, name, id, sourceAt, targetAt);
            var d := |g.arena|;
      && g'.nodes == g.nodes + [d, d + 3]
      && g'.edges == Except(g.edges, {e}) + [d + 1, d + 2, d + 4, r]
      && d + 5 !in g'.edges
      && g'.arena[d + 5] == SegmentFor(g.arena[e], e, d + 3, g.arena[e].target)
      && |g'.edges| == |g.edges| + 3
      && r == d + 6 && g'.arena[r] == Edge(id, typeTag, name, d, d + 3, None)
  {
    var d := |g.arena|;
    DetachListedEdge(g, e, sourceAt);
    var (g1, s) := Detach(g, e, sourceAt);
    DetachUnlistedEdge(g1, e, targetAt);
    assert d + 5 !in g.edges;
    RemoveIsExcept(g.edges, e);
    RemoveKeepsNoDups(g.edges, e);
  }

  /**
   * Connecting a node to an edge that is no longer listed, as written: `splice(-1, 1)`
   * drops the segment pushed last, so only the segment from the old source to the dummy
   * is added and `edges` keeps all it had.
   */
  lemma ConnectToUnlistedEdge(g: Graph, typeTag: string, source: Handle, target: Handle, name: string, id: string,
                              sourceAt: Point, targetAt: Point)
    requires WellFormed(g) && 0 <= source < |g.arena| && g.arena[source].Node?
    requires 0 <= target < |g.arena| && g.arena[target].Edge? && target !in g.edges
    ensures var (g', r) := Connect(g, typeTag, source, target, name, id, sourceAt, targetAt);
            var d := |g.arena|;
      && g'.nodes == g.nodes + [d]
      && g'.edges == g.edges + [d + 1, r]
      && r == d + 3 && g'.arena[r] == Edge(id, typeTag, name, source, d, None)
  {
    DetachUnlistedEdge(g, target, targetAt);
  }

  /**
   * `addEdge` keeps the structural invariant, and keeps every listed edge attached to
   * listed nodes when both endpoints are listed nodes or edges.
   */
  lemma ConnectKeepsInvariants(g: Graph, typeTag: string, source: Handle, target: Handle, name: string, id: string,
                               sourceAt: Point, targetAt: Point)
    requires WellFormed(g) && 0 <= source < |g.arena| && 0 <= target < |g.arena|
    ensures var (g', r) := Connect(g, typeTag, source, target, name, id, sourceAt, targetAt);
      && WellFormed(g') && r in g'.edges && r !in g.edges
      && (Attached(g) && Anchored(g, source) && Anchored(g, target) ==> Attached(g'))
  {
    ConnectWellFormed(g, typeTag, source, target, name, id, sourceAt, targetAt);
    if Attached(g) && Anchored(g, source) && Anchored(g, target) {
      ConnectAttached(g, typeTag, source, target, name, id, sourceAt, targetAt);
    }
  }

  /** The well-formedness half of `ConnectKeepsInvariants`. */
  lemma ConnectWellFormed(g: Graph, typeTag: string, source: Handle, target: Handle, name: string, id: string,
                          sourceAt: Point, targetAt: Point)
    requires WellFormed(g) && 0 <= source < |g.arena| && 0 <= target < |g.arena|
    ensures var c := Connect(g, typeTag, source, target, name, id, sourceAt, targetAt);
      WellFormed(c.0) && c.1 in c.0.edges && c.1 !in g.edges
  {
    DetachWellFormed(g, source, sourceAt);
    var (g1, s) := Detach(g, source, sourceAt);
    DetachWellFormed(g1, target, targetAt);
    var (g2, t) := Detach(g1, target, targetAt);
    var r := |g2.arena|;
    var g' := g2.(arena := g2.arena + [Edge(id, typeTag, name, s, t, None)], edges := g2.edges + [r]);
    assert Connect(g, typeTag, source, target, name, id, sourceAt, targetAt) == (g', r);
    AppendFresh(g2.edges, r);
    forall i | 0 <= i < |g'.arena| ensures EndsOnNodes(g'.arena, i) {
      if 0 <= i < |g2.arena| { assert EndsOnNodes(g2.arena, i); }
    }
  }

  /** The attachment half of `ConnectKeepsInvariants`: both endpoints end up listed nodes. */
  lemma ConnectAttached(g: Graph, typeTag: string, source: Handle, target: Handle, name: string, id: string,
                        sourceAt: Point, targetAt: Point)
    requires WellFormed(g) && Attached(g) && Anchored(g, source) && Anchored(g, target)
    ensures Attached(Connect(g, typeTag, source, target, name, id, sourceAt, targetAt).0)
  {
    DetachWellFormed(g, source, sourceAt);
    DetachAttached(g, source, sourceAt);
    var (g1, s) := Detach(g, source, sourceAt);
    assert g1.arena[target] == g.arena[target];
    assert Anchored(g1, target);
    DetachWellFormed(g1, target, targetAt);
    DetachAttached(g1, target, targetAt);
    var (g2, t) := Detach(g1, target, targetAt);
    assert s in g2.nodes && t in g2.nodes;
    var r := |g2.arena|;
    var g' := g2.(arena := g2.arena + [Edge(id, typeTag, name, s, t, None)], edges := g2.edges + [r]);
    assert Connect(g, typeTag, source, target, name, id, sourceAt, targetAt).0 == g';
    forall x | x in g'.edges
      ensures 0 <= x < |g'.arena| && g'.arena[x].Edge? && g'.arena[x].source in g'.nodes && g'.arena[x].target in g'.nodes
    {
      if x != r { assert x in g2.edges; }
    }
  }


  /** The transform keeps edges attached and yields a listed node, for an anchored endpoint. */
  lemma DetachAttached(g: Graph, end: Handle, at: Point)
    requires WellFormed(g) && Attached(g) && Anchored(g, end)
    ensures var (g', d) := Detach(g, end, at); Attached(g') && d in g'.nodes
  {
    var e := g.arena[end];
    if e.Edge? {
      var (g', d) := Detach(g, end, at);
      if end in g.edges {
        DetachListedEdgeAt(g, end, at, |g.arena|);
      } else {
        DetachUnlistedEdge(g, end, at);
      }
      assert forall k :: 0 <= k < |g.arena| ==> g'.arena[k] == g.arena[k];
      forall x | x in g'.edges
        ensures 0 <= x < |g'.arena| && g'.arena[x].Edge? && g'.arena[x].source in g'.nodes && g'.arena[x].target in g'.nodes
      {
        if x < d {
          assert x in g.edges;
        }
      }
    }
  }

  // ---------------------------------------------------------------- delete

  /** `ViewEdge.delete()` on an edge that is not listed changes nothing. */
  lemma DeleteUnlistedEdge(g: Graph, e: Handle)
    requires 0 <= e < |g.arena| && e !in g.edges
    ensures DeleteEdge(g, e) == g
  {
  }

  /**
   * `ViewEdge.delete()` on a listed edge removes exactly that edge, keeping the order of
   * the others, leaves `nodes` alone and deselects the edge's id.
   */
  lemma DeleteListedEdge(g: Graph, e: Handle)
    requires WellFormed(g) && e in g.edges
    ensures var g' := DeleteEdge(g, e);
      && g'.edges == Except(g.edges, {e}) && e !in g'.edges && |g'.edges| == |g.edges| - 1
      && g'.nodes == g.nodes && g'.arena == g.arena
      && g'.selection == Except(g.selection, {g.arena[e].id})
      && !IsSelected(g'.selection, g.arena[e].id)
      && WellFormed(g') && (Attached(g) ==> Attached(g'))
  {
    RemoveIsExcept(g.edges, e);
    RemoveKeepsNoDups(g.edges, e);
    DeselectedRemovesId(g.selection, g.arena[e].id);
  }

  /**
   * Deleting listed edges one after the other, none twice, filters them out of `edges`
   * and their ids out of the selection, each list keeping its order.
   */
  lemma {:induction false} DeleteAllFilters(g: Graph, es: seq<Handle>)
    requires WellFormed(g) && NoDups(es) && forall e :: e in es ==> e in g.edges
    decreases |es|
    ensures forall k :: 0 <= k < |es| ==> 0 <= es[k] < |g.arena|
    ensures DeleteAll(g, es)
         == g.(edges := Except(g.edges, Elems(es)), selection := Except(g.selection, IdsOf(g.arena, es)))
  {
    assert forall k :: 0 <= k < |es| ==> es[k] in es;
    if es == [] {
      assert Elems(es) == {} && IdsOf(g.arena, es) == {};
      ExceptNothing(g.edges, {});
      ExceptNothing(g.selection, {});
    } else {
      var e := es[0];
      var g1 := DeleteEdge(g, e);
      DeleteListedEdge(g, e);
      NoDupsTail(es);
      forall x | x in es[1..] ensures x in g1.edges {
        assert x in es && x != e;
      }
      DeleteAllFilters(g1, es[1..]);
      ExceptExcept(g.edges, {e}, Elems(es[1..]));
      ExceptExcept(g.selection, {g.arena[e].id}, IdsOf(g.arena, es[1..]));
      ConsSets(g.arena, es);
    }
  }

  /** The handles and the ids of a non-empty list: those of its head and of its tail. */
  lemma ConsSets(arena: seq<Element>, es: seq<Handle>)
    requires es != [] && 0 <= es[0] < |arena|
    ensures Elems(es) == {es[0]} + Elems(es[1..])
    ensures IdsOf(arena, es) == {arena[es[0]].id} + IdsOf(arena, es[1..])
  {
    assert forall x :: x in es <==> x == es[0] || x in es[1..];
  }

  /** `ViewNode.delete()` on a node that is not listed changes nothing. */
  lemma DeleteUnlistedNode(g: Graph, h: Handle)
    requires WellFormed(g) && 0 <= h < |g.arena| && h !in g.nodes
    ensures DeleteNode(g, h) == g
  {
  }

  /**
   * `ViewNode.delete()` on a listed node removes the node and exactly the edges that
   * start or end at it (the others keep their order), leaves the arena (and so every
   * other entity) as it was, and filters the node's id and the removed edges' ids out of
   * the selection.
   */
  lemma DeleteNodeFilters(g: Graph, h: Handle)
    requires WellFormed(g) && h in g.nodes
    ensures var g', t := DeleteNode(g, h), Touching(g.arena, g.edges, h);
      && g'.arena == g.arena
      && g'.nodes == Except(g.nodes, {h})
      && g'.edges == Except(g.edges, Elems(t))
      && g'.selection == Except(g.selection, IdsOf(g.arena, t) + {g.arena[h].id})
  {
    var t := Touching(g.arena, g.edges, h);
    TouchingNoDups(g.arena, g.edges, h);
    DeleteAllFilters(g, t);
    RemoveIsExcept(g.nodes, h);
    ExceptExcept(g.selection, IdsOf(g.arena, t), {g.arena[h].id});
    DeselectedRemovesId(Except(g.selection, IdsOf(g.arena, t)), g.arena[h].id);
  }

  /**
   * What a reader of the lists sees after `ViewNode.delete()` on a listed node: the node
   * is gone, an edge survives exactly when it does not touch the node, and the selection
   * loses the node's id and the removed edges' ids and no other.
   */
  lemma DeleteListedNode(g: Graph, h: Handle)
    requires WellFormed(g) && h in g.nodes
    ensures var g', t := DeleteNode(g, h), Touching(g.arena, g.edges, h);
      && h !in g'.nodes && |g'.nodes| == |g.nodes| - 1
      && (forall e :: e in g'.edges <==> e in g.edges && !Touches(g.arena[e], h))
      && |g'.edges| == |g.edges| - |t|
      && !IsSelected(g'.selection, g.arena[h].id)
      && (forall e :: e in t ==> !IsSelected(g'.selection, g.arena[e].id))
      && (forall id :: id != g.arena[h].id && id !in IdsOf(g.arena, t) ==>
            (IsSelected(g'.selection, id) <==> IsSelected(g.selection, id)))
  {
    DeleteNodeFilters(g, h);
    RemoveIsExcept(g.nodes, h);
    RemoveKeepsNoDups(g.nodes, h);
    TouchingSplits(g.arena, g.edges, h);
  }

  /**
   * `ViewNode.delete()` keeps the structural invariant and, because the edges that touch
   * the node go with it, keeps every listed edge attached to listed nodes.
   */
  lemma DeleteNodeKeepsInvariants(g: Graph, h: Handle)
    requires WellFormed(g) && 0 <= h < |g.arena|
    ensures WellFormed(DeleteNode(g, h))
    ensures Attached(g) ==> Attached(DeleteNode(g, h))
  {
    if h in g.nodes {
      var t := Touching(g.arena, g.edges, h);
      var nodes', edges' := Except(g.nodes, {h}), Except(g.edges, Elems(t));
      DeleteNodeFilters(g, h);
      ExceptNoDups(g.nodes, {h});
      ExceptNoDups(g.edges, Elems(t));
      SublistsWellFormed(g, nodes', edges', DeleteNode(g, h).selection);
      if Attached(g) {
        SurvivorsAttached(g, h, DeleteNode(g, h).selection);
      }
    }
  }

  /** The edges that do not touch a deleted node still end on listed nodes. */
  lemma SurvivorsAttached(g: Graph, h: Handle, selection': seq<string>)
    requires WellFormed(g) && Attached(g) && h in g.nodes
    ensures var t := Touching(g.arena, g.edges, h);
      Attached(Graph(g.arena, Except(g.nodes, {h}), Except(g.edges, Elems(t)), selection'))
  {
    var t := Touching(g.arena, g.edges, h);
    var nodes', edges' := Except(g.nodes, {h}), Except(g.edges, Elems(t));
    forall e | e in edges'
      ensures 0 <= e < |g.arena| && g.arena[e].Edge? && g.arena[e].source in nodes' && g.arena[e].target in nodes'
    {
      assert e in g.edges && !Touches(g.arena[e], h);
    }
  }

  /** Dropping entries from `nodes` and `edges` keeps the structural invariant. */
  lemma SublistsWellFormed(g: Graph, nodes': seq<Handle>, edges': seq<Handle>, selection': seq<string>)
    requires WellFormed(g) && NoDups(nodes') && NoDups(edges')
    requires forall n :: n in nodes' ==> n in g.nodes
    requires forall e :: e in edges' ==> e in g.edges
    ensures WellFormed(Graph(g.arena, nodes', edges', selection'))
  {
  }

  /** The edges that touch a node, taken from a list without duplicates, are listed once each. */
  lemma {:induction false} TouchingNoDups(arena: seq<Element>, es: seq<Handle>, h: Handle)
    requires forall e :: e in es ==> 0 <= e < |arena|
    requires NoDups(es)
    ensures NoDups(Touching(arena, es, h))
  {
    if es != [] {
      assert es[0] in es;
      assert forall e :: e in es[1..] ==> e in es;
      TouchingNoDups(arena, es[1..], h);
      var t := Touching(arena, es[1..], h);
      if Touches(arena[es[0]], h) {
        assert ([es[0]] + t)[1..] == t;
      } else {
        assert [] + t == t;
      }
    }
  }

  /** The edges that touch a node and those that survive its deletion partition `edges`. */
  lemma {:induction false} TouchingSplits(arena: seq<Element>, es: seq<Handle>, h: Handle)
    requires forall e :: e in es ==> 0 <= e < |arena|
    ensures |Except(es, Elems(Touching(arena, es, h)))| + |Touching(arena, es, h)| == |es|
  {
    if es != [] {
      assert forall e :: e in es[1..] ==> e in es;
      TouchingSplits(arena, es[1..], h);
      var t, t' := Touching(arena, es, h), Touching(arena, es[1..], h);
      forall x | x in es[1..] ensures x in Elems(t) <==> x in Elems(t') { }
      ExceptSameOnSeq(es[1..], Elems(t), Elems(t'));
    }
  }

  // ---------------------------------------------------------------- setPosition, setSize

  /**
   * `setPosition` keeps the invariants and the lists, moves only the node `h` (its size
   * and everything else about it stay) and leaves every other entity as it was.
   */
  lemma MovedKeepsInvariants(g: Graph, h: Handle, x: real, y: real)
    requires WellFormed(g) && 0 <= h < |g.arena| && g.arena[h].Node?
    ensures var g' := Moved(g, h, x, y);
      && WellFormed(g') && (Attached(g) ==> Attached(g'))
      && g'.nodes == g.nodes && g'.edges == g.edges && g'.selection == g.selection
      && |g'.arena| == |g.arena| && g'.arena[h].Node?
      && g'.arena[h].x == x && g'.arena[h].y == y
      && g'.arena[h].width == g.arena[h].width && g'.arena[h].height == g.arena[h].height
      && (forall k :: 0 <= k < |g.arena| && k != h ==> g'.arena[k] == g.arena[k])
  {
    var g' := Moved(g, h, x, y);
    forall i | 0 <= i < |g'.arena| ensures EndsOnNodes(g'.arena, i) {
      assert EndsOnNodes(g.arena, i);
    }
  }

  /** Moving a node twice is moving it once, to the second position. */
  lemma MovedTwice(g: Graph, h: Handle, x1: real, y1: real, x2: real, y2: real)
    requires 0 <= h < |g.arena| && g.arena[h].Node?
    ensures Moved(Moved(g, h, x1, y1), h, x2, y2) == Moved(g, h, x2, y2)
  {
  }

  /**
   * `setSize` keeps the invariants and the lists, resizes only the node `h` (its position
   * and everything else about it stay) and leaves every other entity as it was.
   */
  lemma ResizedKeepsInvariants(g: Graph, h: Handle, width: real, height: real)
    requires WellFormed(g) && 0 <= h < |g.arena| && g.arena[h].Node?
    ensures var g' := Resized(g, h, width, height);
      && WellFormed(g') && (Attached(g) ==> Attached(g'))
      && g'.nodes == g.nodes && g'.edges == g.edges && g'.selection == g.selection
      && |g'.arena| == |g.arena| && g'.arena[h].Node?
      && g'.arena[h].width == width && g'.arena[h].height == height
      && g'.arena[h].x == g.arena[h].x && g'.arena[h].y == g.arena[h].y
      && (forall k :: 0 <= k < |g.arena| && k != h ==> g'.arena[k] == g.arena[k])
  {
    var g' := Resized(g, h, width, height);
    forall i | 0 <= i < |g'.arena| ensures EndsOnNodes(g'.arena, i) {
      assert EndsOnNodes(g.arena, i);
    }
  }

  /** `addNode` appends the new node's 40 by 30 rectangle to those the bounding box is reduced over. */
  lemma AddNodeExtendsBoxes(g: Graph, typeTag: string, name: string, id: string, at: Point)
    requires WellFormed(g)
    ensures var (g', h) := AddNode(g, typeTag, name, id, at);
      Boxes(g'.arena, g'.nodes) == Boxes(g.arena, g.nodes) + [Viewport.Box(at.x, at.y, 40.0, 30.0)]
  {
    var (g', h) := AddNode(g, typeTag, name, id, at);
    AddNodeAppends(g, typeTag, name, id, at);
  }
}
