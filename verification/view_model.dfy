/**
 * The `ViewModel` class: the camera fields `x`, `y`, `w` and the graph store, updated in
 * place by its methods. The graph store is the arena of every entity created so far,
 * the ordered `nodes` and `edges` lists (as handles into the arena) and the editor's
 * selection (ids). Each method is proved against the function in graph.dfy or
 * viewport.dfy that describes the same operation on values.
 */
module ViewModels {
  import opened Options
  import opened Seqs
  import Selection
  import Viewport
  import opened Graphs

  class ViewModel {
    var arena: seq<Element>
    var nodes: seq<Handle>
    var edges: seq<Handle>
    var selection: seq<string>
    var x: real
    var y: real
    var w: real

    /** The graph store as a value. */
    function Model(): Graph
      reads this
    {
      Graph(arena, nodes, edges, selection)
    }

    /** The camera as a value. */
    function Camera(): Viewport.Camera
      reads this
    {
      Viewport.Camera(x, y, w)
    }

    predicate Valid()
      reads this
    {
      WellFormed(Model())
    }

    /** A new view model: no entities, nothing selected, origin (0, 0), width 1140. */
    constructor ()
      ensures Valid() && Model() == Empty && Camera() == Viewport.Initial
    {
      arena, nodes, edges, selection := [], [], [], [];
      x, y, w := 0.0, 0.0, Viewport.DesignWidth;
    }

    // ------------------------------------------------------------ derived quantities

    /** `h`. */
    function H(): real
      reads this
    {
      Viewport.Height(w)
    }

    /** `viewport`. */
    function ViewportTuple(): seq<real>
      reads this
    {
      Viewport.ViewportOf(Camera())
    }

    /** `zoomFactor`, defined while the width is not 0. */
    function ZoomFactor(): real
      reads this
      requires w != 0.0
    {
      Viewport.ZoomFactor(w)
    }

    /** The rectangles of the listed nodes. */
    function NodeBoxes(): seq<Viewport.Box>
      reads this
      requires Valid()
    {
      Boxes(arena, nodes)
    }

    function MinX(): real reads this requires Valid() { Viewport.MinX(Camera(), NodeBoxes()) }
    function MaxX(): real reads this requires Valid() { Viewport.MaxX(NodeBoxes()) }
    function MinY(): real reads this requires Valid() { Viewport.MinY(Camera(), NodeBoxes()) }
    function MaxY(): real reads this requires Valid() { Viewport.MaxY(NodeBoxes()) }

    /** `isSelected` of the entity `h`: its id is in the selection. */
    function IsSelected(h: Handle): bool
      reads this
      requires 0 <= h < |arena|
    {
      Selection.IsSelected(selection, arena[h].id)
    }

    /** `isPrimarySelection` of the entity `h`: its id heads the selection. */
    function IsPrimarySelection(h: Handle): bool
      reads this
      requires 0 <= h < |arena|
    {
      Selection.IsPrimarySelection(selection, arena[h].id)
    }

    // ------------------------------------------------------------ camera

    /** `pan(deltaX, deltaY)`. */
    method Pan(deltaX: real, deltaY: real)
      modifies this
      ensures Camera() == Viewport.Panned(old(Camera()), deltaX, deltaY)
      ensures Model() == old(Model())
    {
      x := x + deltaX;
      y := y + deltaY;
    }

    /**
     * `zoom(zoomBy)`: three updates in sequence; the third reads the zoom factor of the
     * width the second has just written.
     */
    method Zoom(zoomBy: real)
      modifies this
      ensures Camera() == Viewport.Zoomed(old(Camera()), zoomBy)
      ensures Model() == old(Model())
    {
      x := x + Viewport.ZoomShift(w, zoomBy);
      w := w - Viewport.ZoomShift(w, zoomBy) * 2.0;
      y := y + Viewport.ZoomShift(w, zoomBy) * 4.0 / 3.0;
    }

    /**
     * `zoomToFit()`: `x` is written first, `y` next and `w` last; the extents depend on
     * the width and the nodes only, so every extent is read with the width from before
     * the call, as the locals here make explicit.
     */
    method ZoomToFit()
      modifies this
      requires Valid()
      ensures Camera() == Viewport.Fitted(old(Camera()), old(NodeBoxes()))
      ensures Model() == old(Model()) && Valid()
    {
      var minX, maxX, minY, maxY := MinX(), MaxX(), MinY(), MaxY();
      if maxX - minX > 0.0 {
        x := minX - Viewport.FitMargin;
        y := minY - Viewport.FitMargin;
        w := Viewport.Max(maxX - minX, (maxY - minY) * 4.0 / 3.0) + 2.0 * Viewport.FitMargin;
      }
    }

    // ------------------------------------------------------------ entities

    /** `addNode(type, name, id)`, with the position `Math.random()` would give as `at`. */
    method AddNode(typeTag: string, name: string, id: string, at: Point) returns (h: Handle)
      modifies this
      requires Valid()
      ensures (Model(), h) == Graphs.AddNode(old(Model()), typeTag, name, id, at)
      ensures Camera() == old(Camera()) && Valid()
    {
      h := |arena|;
      arena := arena + [NewNode(typeTag, name, id, at)];
      nodes := nodes + [h];
      AddNodeAppends(old(Model()), typeTag, name, id, at);
    }

    /**
     * `addEdge(type, source, target, name, id)`: an endpoint that is an edge is replaced
     * by a dummy node placed at `sourceAt` or `targetAt` and two segments; then the new
     * edge is pushed.
     */
    method AddEdge(typeTag: string, source: Handle, target: Handle, name: string, id: string,
                   sourceAt: Point, targetAt: Point) returns (r: Handle)
      modifies this
      requires Valid() && 0 <= source < |arena| && 0 <= target < |arena|
      ensures (Model(), r) == Connect(old(Model()), typeTag, source, target, name, id, sourceAt, targetAt)
      ensures Camera() == old(Camera()) && Valid()
    {
      var s := source;
      if arena[s].Edge? {
        s := ReplaceByDummy(s, sourceAt);
      } else {
        DetachNode(old(Model()), source, sourceAt);
      }
      ghost var half := Model();
      var t := target;
      if arena[t].Edge? {
        t := ReplaceByDummy(t, targetAt);
      } else {
        DetachNode(half, target, targetAt);
      }
      r := |arena|;
      arena := arena + [Edge(id, typeTag, name, s, t, None)];
      edges := edges + [r];
      ConnectKeepsInvariants(old(Model()), typeTag, source, target, name, id, sourceAt, targetAt);
    }

    /**
     * One `if (… instanceof ViewEdge)` block of `addEdge`: push a dummy node, push the two
     * segments, splice the edge out at `indexOf`, and answer the dummy.
     */
    method ReplaceByDummy(end: Handle, at: Point) returns (d: Handle)
      modifies this
      requires Valid() && 0 <= end < |arena| && arena[end].Edge?
      ensures (Model(), d) == Detach(old(Model()), end, at)
      ensures Camera() == old(Camera()) && Valid()
    {
      var e := arena[end];
      d := |arena|;
      arena := arena + [DummyFor(e, at)];
      nodes := nodes + [d];
      arena := arena + [SegmentFor(e, end, e.source, d), SegmentFor(e, end, d, e.target)];
      edges := edges + [d + 1];
      edges := edges + [d + 2];
      assert old(edges) + [d + 1] + [d + 2] == old(edges) + [d + 1, d + 2];
      assert old(arena) + [DummyFor(e, at)] + [SegmentFor(e, end, e.source, d), SegmentFor(e, end, d, e.target)]
          == old(arena) + [DummyFor(e, at), SegmentFor(e, end, e.source, d), SegmentFor(e, end, d, e.target)];
      RemoveIsSplice(edges, end);
      edges := Splice1(edges, IndexOf(edges, end));
      DetachWellFormed(old(Model()), end, at);
    }

    /** `ViewEdge.delete()`. */
    method DeleteEdge(e: Handle)
      modifies this
      requires Valid() && 0 <= e < |arena|
      ensures Model() == Graphs.DeleteEdge(old(Model()), e)
      ensures Camera() == old(Camera()) && Valid()
    {
      if e in edges {
        if IsSelected(e) {
          selection := Selection.Toggled(selection, arena[e].id);
        }
        RemoveIsSplice(edges, e);
        edges := Splice1(edges, IndexOf(edges, e));
        DeleteListedEdge(old(Model()), e);
      }
    }

    /**
     * `ViewNode.delete()`: delete, one after the other, the edges that touched the node
     * when the call began, then deselect the node and splice it out of `nodes`.
     */
    method DeleteNode(h: Handle)
      modifies this
      requires Valid() && 0 <= h < |arena| && arena[h].Node?
      ensures Model() == Graphs.DeleteNode(old(Model()), h)
      ensures Camera() == old(Camera()) && Valid()
    {
      if h in nodes {
        var touching := Touching(arena, edges, h);
        assert forall k :: 0 <= k < |touching| ==> touching[k] in touching;
        DeleteEach(touching);
        ghost var afterEdges := Model();
        if IsSelected(h) {
          selection := Selection.Toggled(selection, arena[h].id);
        }
        RemoveIsSplice(nodes, h);
        nodes := Splice1(nodes, IndexOf(nodes, h));
        assert Model() == afterEdges.(selection := Selection.Deselected(afterEdges.selection, arena[h].id),
                                      nodes := Remove(afterEdges.nodes, h));
        DeleteNodeKeepsInvariants(old(Model()), h);
      }
    }

    /** `edges.forEach((edge) => edge.delete())` over a snapshot of handles. */
    method DeleteEach(es: seq<Handle>)
      modifies this
      requires Valid() && forall k :: 0 <= k < |es| ==> 0 <= es[k] < |arena|
      ensures Model() == DeleteAll(old(Model()), es)
      ensures Camera() == old(Camera()) && Valid()
    {
      var i := 0;
      while i < |es|
        invariant 0 <= i <= |es|
        invariant Valid() && Camera() == old(Camera()) && arena == old(arena)
        invariant DeleteAll(Model(), es[i..]) == DeleteAll(old(Model()), es)
      {
        DeleteAllStep(Model(), es, i);
        DeleteEdge(es[i]);
        i := i + 1;
      }
      assert es[i..] == [];
    }

    /** `setPosition(x, y)` on the node `h`. */
    method SetPosition(h: Handle, newX: real, newY: real)
      modifies this
      requires Valid() && 0 <= h < |arena| && arena[h].Node?
      ensures Model() == Moved(old(Model()), h, newX, newY)
      ensures Camera() == old(Camera()) && Valid()
    {
      arena := arena[h := arena[h].(x := newX, y := newY)];
      MovedKeepsInvariants(old(Model()), h, newX, newY);
    }

    /** `setSize(width, height)` on the node `h`. */
    method SetSize(h: Handle, width: real, height: real)
      modifies this
      requires Valid() && 0 <= h < |arena| && arena[h].Node?
      ensures Model() == Resized(old(Model()), h, width, height)
      ensures Camera() == old(Camera()) && Valid()
    {
      arena := arena[h := arena[h].(width := width, height := height)];
      ResizedKeepsInvariants(old(Model()), h, width, height);
    }
  }

  /** One turn of the loop in `DeleteNode`: the edge at position `i` is deleted next. */
  lemma DeleteAllStep(g: Graph, es: seq<Handle>, i: nat)
    requires i < |es| && forall k :: 0 <= k < |es| ==> 0 <= es[k] < |g.arena|
    ensures DeleteAll(g, es[i..]) == DeleteAll(Graphs.DeleteEdge(g, es[i]), es[i + 1..])
  {
    assert es[i..][1..] == es[i + 1..];
  }
}
