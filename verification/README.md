# Graph view model and record upserts, in Dafny

This project models two parts of a web-based modelling tool that draws models as graphs.

**The view model** (`src/wmf/model/view-model.ts`) holds:
- the ordered `nodes` and `edges` of the drawing;
- the editor's selection (an ordered list of ids whose head is the primary selection);
- the camera `x`, `y`, `w`, together with its derived height, zoom factor and the bounding box of the nodes.

Its operations are the following:
- `addNode`.
- `addEdge`, including the edge-to-edge transform. When an endpoint is itself an edge, that edge is replaced by a dummy node and two segments, and the dummy becomes the endpoint.
- The cascading `ViewNode.delete` and the plain `ViewEdge.delete`.
- `setPosition` and `setSize`.
- `pan`, `zoom` and `zoomToFit`.

**The back end** (`src/backend/api.ts`) folds database results into a graphical view. Each result passes through a find-by-id-or-create step over the view's `nodes`, `edges` and `selection` arrays. This happens in:
- `getObjects`;
- `getRelationsFrom` and `getRelationsTo`;
- `loadAll`;
- `expandRelations`, which chains two of these;
- `loadModel`, which builds a fixed sample graph.

Layout:

- `seqs.dfy` (`Seqs`): the JavaScript array operations the code uses, written as functions on sequences.
  - `indexOf`, which gives -1 when the element is absent.
  - `splice(start, 1)`, including negative starts.
  - The idiom `splice(indexOf(x), 1)`.
  - `filter`.
- `selection.dfy` (`Selection`): `isSelected`, `isPrimarySelection`, and the editor's toggle.
- `viewport.dfy` (`Viewport`): the camera, its derived quantities, the bounding-box reductions, and pan, zoom and zoom-to-fit, all as functions.
- `graph.dfy` (`Graphs`): the graph store as a value, with each operation as a function from the old graph to the new one.
  - Every entity ever created occupies a place in an append-only arena.
  - Its index, a `Handle`, stands for the object reference. Identity is therefore by reference, as with `===`, `includes` and `indexOf`, and not by id: a dummy node and both segments reuse the id of the edge they replace.
- `view_model.dfy` (`ViewModels`): the class `ViewModel`, whose fields are updated in place. Each method is proved equal to the corresponding function in `Graphs` or `Viewport`.
- `upserts.dfy` (`Upserts`): the back end's record steps and batches as functions on a `Canvas` value, and the class `GraphicalView` whose methods perform them in place.
  - The node field `label` is named `caption`.
  - A node is referred to by its position in `nodes`.

The `splice(indexOf(x), 1)` idiom is modelled as written. Two consequences follow, and both are stated as lemmas:
- **Absent edge.** When an edge endpoint is no longer listed, `indexOf` gives -1 and the splice removes the segment pushed last.
- **Edge joined to itself.** When the same listed edge is both source and target, its second half loses one segment in the same way.

## Model

| member | source | states |
|---|---|---|
| ViewModels.ViewModel.constructor | src/wmf/model/view-model.ts:14-19 | A new view model has no entities and an empty selection. Its camera is at the origin with width 1140, and the invariant holds. |
| Viewport.DerivedQuantities | src/wmf/model/view-model.ts:20-23 | The height shown is three quarters of the width. For a non-zero width, the zoom factor times the width is 1140. |
| Viewport.Height | src/wmf/model/view-model.ts:20 | The definition of the `h` getter: `w / 4 * 3`. `DerivedQuantities` states it as three quarters of the width. |
| Viewport.ZoomFactor | src/wmf/model/view-model.ts:23 | The definition of the `zoomFactor` getter, for a non-zero width. `DerivedQuantities` states that it scales the width to 1140. |
| Viewport.ViewportOf | src/wmf/model/view-model.ts:22 | The definition of the `viewport` getter: the tuple `[x, y, w, h]`. `ViewportTracksCamera` states how it follows pan and zoom. |
| Viewport.ViewportTracksCamera | src/wmf/model/view-model.ts:22 | Panning shifts the tuple's corner by exactly the delta and keeps its width and height. Zooming keeps the middle of its horizontal span and scales its width by `1 − zoomBy/570`. Its height stays three quarters of its width. |
| Viewport.LeftEdge | src/wmf/model/view-model.ts:25 | The min-reduction over node x is at most the seed and every node's x. It equals either the seed or some node's x. |
| Viewport.RightEdge | src/wmf/model/view-model.ts:26 | The max-reduction over x + width is at least the seed and every node's right edge. It equals either the seed or one of them. |
| Viewport.TopEdge | src/wmf/model/view-model.ts:27 | The min-reduction over y is a lower bound of the seed and every node's y, and is attained. |
| Viewport.BottomEdge | src/wmf/model/view-model.ts:28 | The max-reduction over y + height is an upper bound of the seed and every node's bottom edge, and is attained. |
| Viewport.MinX | src/wmf/model/view-model.ts:25 | The definition of the `minX` getter: the min-reduction over node x, seeded with `w/2`. `LeftEdge` states its bounds. |
| Viewport.MaxX | src/wmf/model/view-model.ts:26 | The definition of the `maxX` getter: the max-reduction over node right edges, seeded with 0. `RightEdge` states its bounds. |
| Viewport.MinY | src/wmf/model/view-model.ts:27 | The definition of the `minY` getter: the min-reduction over node y, seeded with `h/2`. `TopEdge` states its bounds. |
| Viewport.MaxY | src/wmf/model/view-model.ts:28 | The definition of the `maxY` getter: the max-reduction over node bottom edges, seeded with 0. `BottomEdge` states its bounds. |
| Graphs.Boxes | src/wmf/model/view-model.ts:25-28 | The bounding box is reduced over one rectangle per listed node, in list order. Each rectangle is that node's position and size. |
| ViewModels.ViewModel.H | src/wmf/model/view-model.ts:20 | The `h` getter on the current width. Its meaning is given by `Viewport.DerivedQuantities`. |
| ViewModels.ViewModel.ViewportTuple | src/wmf/model/view-model.ts:22 | The `viewport` getter on the current camera. `Viewport.ViewportTracksCamera` relates it to `Pan` and `Zoom`. |
| ViewModels.ViewModel.ZoomFactor | src/wmf/model/view-model.ts:23 | The `zoomFactor` getter on the current width. Its meaning is given by `Viewport.DerivedQuantities`. |
| ViewModels.ViewModel.MinX | src/wmf/model/view-model.ts:25 | The `minX` getter on the current camera and nodes. Its bounds are stated by `Viewport.LeftEdge`. |
| ViewModels.ViewModel.MaxX | src/wmf/model/view-model.ts:26 | The `maxX` getter on the current nodes. Its bounds are stated by `Viewport.RightEdge`. |
| ViewModels.ViewModel.MinY | src/wmf/model/view-model.ts:27 | The `minY` getter on the current camera and nodes. Its bounds are stated by `Viewport.TopEdge`. |
| ViewModels.ViewModel.MaxY | src/wmf/model/view-model.ts:28 | The `maxY` getter on the current nodes. Its bounds are stated by `Viewport.BottomEdge`. |
| Graphs.AddNode | src/wmf/model/view-model.ts:38-42 | The definition of `addNode` on the graph value: push a new node and answer it. `AddNodeAppends` and `AddNodeExtendsBoxes` state its effect. |
| ViewModels.ViewModel.AddNode | src/wmf/model/view-model.ts:38-42 | `addNode` updates the fields exactly as `Graphs.AddNode` describes and returns the new handle. The camera is unchanged and the invariant is kept. |
| Graphs.AddNodeAppends | src/wmf/model/view-model.ts:38-42 | The new node appears once, at the end of `nodes`. It carries the given id, type and name, the given position, size 40×30 and its type as shape. Edges, selection and every listed entity are unchanged, and both invariants are kept. |
| Graphs.AddNodeExtendsBoxes | src/wmf/model/view-model.ts:38-42 | Adding a node appends its 40×30 rectangle to the rectangles the bounding box is reduced over. |
| Graphs.DummyFor | src/wmf/model/view-model.ts:192-199 | The `DummyNode` constructor: the edge's type, name and id, shape `circle`, size 20×20. `DetachListedEdge` states these fields. |
| Graphs.SegmentFor | src/wmf/model/view-model.ts:201-207 | The `EdgeSegment` constructor: the edge's type and id, an empty name, and the given ends. `DetachListedEdge` states these fields. |
| Graphs.Detach | src/wmf/model/view-model.ts:46-57 | The definition of one `instanceof ViewEdge` block of `addEdge` on the graph value. `DetachNode`, `DetachListedEdge`, `DetachUnlistedEdge`, `DetachWellFormed` and `DetachAttached` state its effect. |
| Graphs.Connect | src/wmf/model/view-model.ts:44-74 | The definition of `addEdge` on the graph value: detach the source, then the target, then push the edge. The `Connect…` lemmas below state its effect case by case, and `ConnectKeepsInvariants` states the invariants it keeps. |
| ViewModels.ViewModel.AddEdge | src/wmf/model/view-model.ts:44-74 | `addEdge` updates the fields exactly as `Graphs.Connect` describes and returns the new edge. The camera is unchanged and the invariant is kept. |
| ViewModels.ViewModel.ReplaceByDummy | src/wmf/model/view-model.ts:46-57 | One `instanceof ViewEdge` block, performed by push, push, push and `splice(indexOf)`, equals `Graphs.Detach` and keeps the invariant. |
| Graphs.DetachNode | src/wmf/model/view-model.ts:46 | A node endpoint is used as it is and nothing changes. |
| Graphs.DetachListedEdge | src/wmf/model/view-model.ts:46-57 | A listed edge endpoint is replaced: a 20×20 `circle` dummy with the edge's id, type and name is appended to `nodes`. The segments source→dummy and dummy→target (edge's id, empty name) follow the other edges in order, and the edge itself leaves `edges`. The result is well formed. |
| Graphs.DetachListedEdgeAt | src/wmf/model/view-model.ts:46-57 | The same transform as a single equation on the graph. |
| Graphs.DetachUnlistedEdge | src/wmf/model/view-model.ts:53-55 | When the edge endpoint is not listed, `indexOf` gives -1 and `splice(-1, 1)` drops the second segment. Only the dummy and the first segment are added. |
| Graphs.DetachWellFormed | src/wmf/model/view-model.ts:46-69 | The transform keeps the invariant. It only extends the arena, keeps every listed node listed, leaves the selection alone, and yields a node handle. |
| Graphs.DetachAttached | src/wmf/model/view-model.ts:46-69 | When every listed edge ends on listed nodes and the endpoint is anchored, the same still holds after the transform, and the dummy is listed. |
| Graphs.ConnectNodes | src/wmf/model/view-model.ts:70-72 | With two node endpoints, `nodes` and the selection are unchanged. Exactly one edge, from source to target, is appended. |
| Graphs.ConnectToEdge | src/wmf/model/view-model.ts:58-72 | With a listed edge as target, that edge leaves `edges` and one dummy (its id, type and name, circle, 20×20) is appended to `nodes`. The two segments and then the new edge are appended, and the new edge ends at the dummy. The edge count becomes old − 1 + 2 + 1. |
| Graphs.ConnectFromEdge | src/wmf/model/view-model.ts:46-72 | The mirror image of `ConnectToEdge`, with a listed edge as source. |
| Graphs.ConnectEdges | src/wmf/model/view-model.ts:46-72 | With two distinct listed edges, both leave `edges`. The four segments and the new edge are appended in push order, and the edge count becomes old − 2 + 4 + 1. |
| Graphs.ConnectEdgesDummies | src/wmf/model/view-model.ts:46-72 | With two distinct listed edges, `nodes` grows by the two dummies. The new edge runs from the first dummy to the second, and the selection is unchanged. |
| Graphs.ConnectTwoEdges | src/wmf/model/view-model.ts:46-69 | The two halves of that case, each as an equation on the intermediate graph. |
| Graphs.ConnectEdgeToItself | src/wmf/model/view-model.ts:46-72 | When a listed edge is joined to itself, the target half no longer finds it, so its second segment is dropped. Three segments and the new edge remain. |
| Graphs.ConnectToUnlistedEdge | src/wmf/model/view-model.ts:58-72 | When the target edge is not listed, `edges` keeps all it had and gains only the first segment and the new edge. |
| Graphs.ConnectKeepsInvariants | src/wmf/model/view-model.ts:44-74 | `addEdge` keeps the invariant and adds the new edge to `edges`. When both endpoints are anchored, it also keeps every listed edge attached to listed nodes. |
| Viewport.Panned | src/wmf/model/view-model.ts:76-81 | The definition of `pan` on the camera value. `PanMovesCorner` and `PanUndone` state its effect. |
| ViewModels.ViewModel.Pan | src/wmf/model/view-model.ts:76-81 | `pan` moves the camera as `Viewport.Panned` describes and leaves the graph alone. |
| Viewport.PanMovesCorner | src/wmf/model/view-model.ts:76-81 | Panning moves the corner by exactly the delta and keeps the width and the height. |
| Viewport.PanUndone | src/wmf/model/view-model.ts:76-81 | Panning by the opposite delta restores the camera. |
| Viewport.ZoomShift | src/wmf/model/view-model.ts:85 | The quotient `zoomBy / zoomFactor`, taken as 0 at width 0. `ZoomShiftProportional` states its value. |
| Viewport.Zoomed | src/wmf/model/view-model.ts:83-89 | The definition of `zoom` on the camera value. `ZoomKeepsHorizontalCentre`, `ZoomWidthPositive`, `ZoomVerticalShift` and `ZoomMovesVerticalCentre` state its effect. |
| ViewModels.ViewModel.Zoom | src/wmf/model/view-model.ts:83-89 | `zoom` performs its three updates in sequence, equal to `Viewport.Zoomed`, and leaves the graph alone. |
| Viewport.ZoomShiftProportional | src/wmf/model/view-model.ts:85 | `zoomBy / zoomFactor` is `zoomBy · w / 1140`, including at width 0. |
| Viewport.ZoomKeepsHorizontalCentre | src/wmf/model/view-model.ts:83-89 | Zooming keeps `x + w/2` and scales the width by `1 − zoomBy/570`. |
| Viewport.ZoomWidthPositive | src/wmf/model/view-model.ts:86 | Nothing clamps the width: from a positive width it stays positive if and only if `zoomBy < 570`. |
| Viewport.ZoomVerticalShift | src/wmf/model/view-model.ts:87 | The vertical shift is computed at the new width: `y` grows by `zoomBy · w' / 855`. |
| Viewport.ZoomMovesVerticalCentre | src/wmf/model/view-model.ts:83-89 | The vertical centre is not kept: zooming the initial camera by 57 moves it from 427.5 to 453.15. |
| Viewport.Fitted | src/wmf/model/view-model.ts:91-99 | The definition of `zoomToFit` on the camera value. `FitShowsEveryNode`, `FitWithoutNodes` and `FitTwoNodes` state its effect. |
| ViewModels.ViewModel.ZoomToFit | src/wmf/model/view-model.ts:91-99 | `zoomToFit` sets the camera to `Viewport.Fitted` of the old camera and the node rectangles, and leaves the graph alone. |
| Viewport.FitShowsEveryNode | src/wmf/model/view-model.ts:91-99 | When the horizontal extent is positive, the new width is positive and every node rectangle lies inside the new view. |
| Viewport.FitWithoutNodes | src/wmf/model/view-model.ts:91-99 | With no nodes and a positive width, zoom-to-fit changes nothing, because the seeds make the extent negative. |
| Viewport.FitTwoNodes | src/wmf/model/view-model.ts:91-99 | Two 40×30 nodes at (0,0) and (600,400) give the camera (−20, −20) with width 680. |
| Selection.IsSelected | src/wmf/model/view-model.ts:122-124 | The definition of the `isSelected` getter: `selection.includes(id)`. `ToggleFlips`, `ToggleTwice` and `DeselectedRemovesId` state how the toggle and the deletes change it. |
| Selection.IsPrimarySelection | src/wmf/model/view-model.ts:117-120 | The definition of the `isPrimarySelection` getter: the selection is non-empty and starts with the id. Its contract states that the primary selection is selected, and `ToggleSelectsLast` states when a newly selected id becomes primary. |
| Selection.Toggled | src/wmf/model/view-model.ts:135-137 | The editor's `toggleSelection`, which is not part of this model, as taken here. `ToggleFlips`, `ToggleTwice` and `ToggleSelectsLast` state its effect. |
| Selection.Deselected | src/wmf/model/view-model.ts:135-137 | The definition of the guarded toggle `if (isSelected) toggleSelection`. `DeselectedRemovesId` states its effect. |
| Selection.ToggleFlips | src/wmf/model/view-model.ts:135-137 | The toggle flips the membership of the toggled id and of no other id. |
| Selection.ToggleTwice | src/wmf/model/view-model.ts:135-137 | Toggling twice restores every id's membership. |
| Selection.ToggleSelectsLast | src/wmf/model/view-model.ts:117-120 | Selecting an unselected id appends it. It becomes primary if and only if nothing was selected before. |
| Selection.DeselectedRemovesId | src/wmf/model/view-model.ts:135-137 | `if (isSelected) toggleSelection` removes every occurrence of the id and nothing else, keeping the order. |
| ViewModels.ViewModel.IsSelected | src/wmf/model/view-model.ts:122-124 | The `isSelected` getter of an entity on the current selection, as `Selection.IsSelected`. |
| ViewModels.ViewModel.IsPrimarySelection | src/wmf/model/view-model.ts:117-120 | The `isPrimarySelection` getter of an entity on the current selection, as `Selection.IsPrimarySelection`. |
| Graphs.DeleteEdge | src/wmf/model/view-model.ts:182-189 | The definition of `ViewEdge.delete` on the graph value. `DeleteUnlistedEdge` and `DeleteListedEdge` state its effect. |
| ViewModels.ViewModel.DeleteEdge | src/wmf/model/view-model.ts:182-189 | `ViewEdge.delete` updates the fields as `Graphs.DeleteEdge` describes. The camera is unchanged and the invariant is kept. |
| Graphs.DeleteUnlistedEdge | src/wmf/model/view-model.ts:183 | Deleting an edge that is not listed changes nothing. |
| Graphs.DeleteListedEdge | src/wmf/model/view-model.ts:182-189 | Deleting a listed edge filters exactly that edge out of `edges`, keeping the others' order. `nodes` and the arena are unchanged, the edge's id is filtered out of the selection, and both invariants are kept. |
| Graphs.DeleteNode | src/wmf/model/view-model.ts:131-140 | The definition of `ViewNode.delete` on the graph value. `DeleteUnlistedNode`, `DeleteNodeFilters`, `DeleteListedNode` and `DeleteNodeKeepsInvariants` state its effect. |
| ViewModels.ViewModel.DeleteNode | src/wmf/model/view-model.ts:131-140 | `ViewNode.delete` updates the fields as `Graphs.DeleteNode` describes. The camera is unchanged and the invariant is kept. |
| ViewModels.ViewModel.DeleteEach | src/wmf/model/view-model.ts:133-134 | The `forEach` over the snapshot of touching edges equals `Graphs.DeleteAll`. |
| Graphs.DeleteAll | src/wmf/model/view-model.ts:133-134 | Deleting edges one by one never changes the arena or `nodes`. |
| Graphs.DeleteAllFilters | src/wmf/model/view-model.ts:133-134 | Deleting distinct listed edges in turn filters exactly them out of `edges`, and their ids out of the selection, with order kept. |
| Graphs.Touching | src/wmf/model/view-model.ts:133 | The filter yields exactly the listed edges whose source or target is the node. |
| Graphs.TouchingNoDups | src/wmf/model/view-model.ts:133 | The filtered edges are listed at most once each. |
| Graphs.TouchingSplits | src/wmf/model/view-model.ts:133 | The touching edges and the surviving edges together account for every listed edge. |
| Graphs.DeleteUnlistedNode | src/wmf/model/view-model.ts:132 | Deleting a node that is not listed changes nothing. |
| Graphs.DeleteNodeFilters | src/wmf/model/view-model.ts:131-140 | Deleting a listed node filters the node out of `nodes` and exactly the touching edges out of `edges`, keeping order. The node's id and those edges' ids are filtered out of the selection, and the arena is unchanged. |
| Graphs.DeleteListedNode | src/wmf/model/view-model.ts:131-140 | After the delete, the node is gone. An edge survives if and only if it does not touch the node, and the counts drop by one node and by the touching edges. The node and those edges are deselected, and every other id keeps its membership. |
| Graphs.DeleteNodeKeepsInvariants | src/wmf/model/view-model.ts:131-140 | Deleting a node keeps the invariant. Because the touching edges go with it, every listed edge stays attached to listed nodes. |
| Graphs.SurvivorsAttached | src/wmf/model/view-model.ts:133-138 | The edges that do not touch the deleted node still end on listed nodes. |
| Graphs.Moved | src/wmf/model/view-model.ts:146-150 | The definition of `setPosition` on the graph value. `MovedKeepsInvariants` and `MovedTwice` state its effect. |
| ViewModels.ViewModel.SetPosition | src/wmf/model/view-model.ts:146-150 | `setPosition` updates the arena as `Graphs.Moved` describes. The camera is unchanged and the invariant is kept. |
| Graphs.MovedKeepsInvariants | src/wmf/model/view-model.ts:146-150 | Only the node's position changes: its size, the lists, the selection and every other entity stay, and both invariants are kept. |
| Graphs.MovedTwice | src/wmf/model/view-model.ts:146-150 | Moving twice equals moving once, to the second position. |
| Graphs.Resized | src/wmf/model/view-model.ts:152-156 | The definition of `setSize` on the graph value. `ResizedKeepsInvariants` states its effect. |
| ViewModels.ViewModel.SetSize | src/wmf/model/view-model.ts:152-156 | `setSize` updates the arena as `Graphs.Resized` describes. The camera is unchanged and the invariant is kept. |
| Graphs.ResizedKeepsInvariants | src/wmf/model/view-model.ts:152-156 | Only the node's size changes: its position, the lists, the selection and every other entity stay, and both invariants are kept. |
| Seqs.IndexOf | src/wmf/model/view-model.ts:55 | `indexOf` gives -1 if and only if the element is absent. Otherwise it gives a position holding the element, with no earlier occurrence. |
| Seqs.Splice1 | src/wmf/model/view-model.ts:55 | `splice(start, 1)` cuts out the element at `start`, counting back from the end when `start` is negative, and removes nothing past the end. |
| Seqs.Remove | src/wmf/model/view-model.ts:55 | The idiom `splice(indexOf(x), 1)` removes exactly one element from a non-empty list. |
| Seqs.RemoveIsSplice | src/wmf/model/view-model.ts:55 | The recursive definition equals `splice` at `indexOf`. |
| Seqs.RemovePresent | src/wmf/model/view-model.ts:55 | When the element is present, the idiom cuts out its first occurrence. |
| Seqs.RemoveAbsent | src/wmf/model/view-model.ts:55 | When the element is absent, the idiom drops the last element. |
| Seqs.RemoveIsExcept | src/wmf/model/view-model.ts:138 | On a list without duplicates, removing a present element equals filtering it out. |
| Seqs.RemoveBeforeAppended | src/wmf/model/view-model.ts:53-55 | Pushing the segments and then splicing out the present original edge filters out exactly that edge and keeps the segments. |
| Seqs.RemoveKeepsNoDups | src/wmf/model/view-model.ts:138 | The idiom never introduces an element and keeps a list free of duplicates. A present element is gone afterwards. |
| Seqs.Except | src/wmf/model/view-model.ts:133 | The filter keeps exactly the elements not in the removed set and never grows the list. |
| Seqs.KeptPositions | src/wmf/model/view-model.ts:133 | Each element of the filtered list is the element of the original list at the matching kept position. |
| Seqs.ExceptKeepsOrder | src/wmf/model/view-model.ts:133 | The kept positions strictly increase and include every position whose element is not removed, so the filter yields the subsequence that avoids the removed set, in the original order. |
| Upserts.RemoveFirst | src/backend/api.ts:86 | `replace('Relation', '')` either leaves the length alone or shortens it by the pattern's length. |
| Upserts.RemoveFirstWithout | src/backend/api.ts:86 | A string with no occurrence of the pattern is unchanged. |
| Upserts.RemoveFirstAt | src/backend/api.ts:86 | Exactly the characters of the first occurrence are cut out. |
| Upserts.RelationLabelDropsWord | src/backend/api.ts:86 | A relation typed `compositionRelation` is labelled `composition`. |
| Upserts.RelationLabelFirstOnly | src/backend/api.ts:86 | Only the first `Relation` goes: `RelationRelation` gives `Relation`. |
| Upserts.RelationLabelUnchanged | src/backend/api.ts:86 | A type without `Relation` (`flow`) is its own label. |
| Upserts.FindNode | src/backend/api.ts:35 | `find` gives `undefined` if and only if no node has the id. Otherwise it gives the first node with the id. |
| Upserts.NodeFor | src/backend/api.ts:36-44 | The node every body creates for an object it does not find. `UpsertNodeCreates` states its fields. |
| Upserts.EdgeFor | src/backend/api.ts:84-87 | The edge every relation body creates for a relation it does not find. `UpsertEdgeOutcome` states its fields. |
| Upserts.UpsertNode | src/backend/api.ts:35-47 | The definition of the node half of every record body. `UpsertNodeFound`, `UpsertNodeCreates`, `UpsertNodeFresh`, `UpsertNodeFinds` and `UpsertNodeKeepsFinds` state its effect. |
| Upserts.UpsertNodeFound | src/backend/api.ts:35-36 | When a node with the id exists, the step changes nothing (not `nodes`, not `selection`) and answers a node with that id. |
| Upserts.UpsertNodeCreates | src/backend/api.ts:36-47 | For a new id, exactly one node is appended: id `obj.id`, label `obj.name`, layer `meta.category`, type and shape `meta.types[0]` (`undefined` when the list is empty), size 40×30. It is pushed onto `selection` exactly when the body does so, and the edges are unchanged. |
| Upserts.UpsertNodeFresh | src/backend/api.ts:35-47 | The node step never appends a node whose id is already present, and it keeps ids unique and handles in range. |
| Upserts.UpsertEdge | src/backend/api.ts:82-89 | The definition of the edge half of the relation bodies, with the exception flag. `UpsertEdgeOutcome`, `UpsertEdgeFresh` and `UpsertEdgeAgain` state its effect. |
| Upserts.UpsertEdgeOutcome | src/backend/api.ts:82-89 | A present edge id changes nothing. For a new id, a relation with fewer than two types throws and nothing is pushed. Otherwise exactly one edge is appended, with type `meta.types[1]` and that type minus its first `Relation` as label. Nodes and selection are never touched. |
| Upserts.UpsertEdgeFresh | src/backend/api.ts:82-89 | The edge step never appends an edge whose id is already present and keeps the canvas consistent. After it, the edge is present unless the step threw. |
| Upserts.OutgoingEdge | src/backend/api.ts:69-89 | In `getRelationsFrom`, a created edge runs from the given node to the found or created target, with type `meta.types[1]` and the shortened label. |
| Upserts.IncomingEdge | src/backend/api.ts:110-130 | In `getRelationsTo`, a created edge runs from the found or created source to the given node. |
| Upserts.UpsertNodeFinds | src/backend/api.ts:35-46 | After the node step, `find` answers the node the step answered. |
| Upserts.UpsertNodeKeepsFinds | src/backend/api.ts:35-46 | The node step keeps every earlier `find` answer. |
| Upserts.UpsertEdgeAgain | src/backend/api.ts:82-89 | Repeating the edge step changes nothing more and gives the same outcome. |
| Upserts.ObjectStep | src/backend/api.ts:35-47 | The definition of the `getObjects` body. `ObjectStepIdempotent` and `ObjectStepConsistent` state its effect. |
| Upserts.OutgoingStep | src/backend/api.ts:68-89 | The definition of the `getRelationsFrom` body. `OutgoingEdge`, `OutgoingStepIdempotent` and `OutgoingStepConsistent` state its effect. |
| Upserts.IncomingStep | src/backend/api.ts:109-130 | The definition of the `getRelationsTo` body. `IncomingEdge`, `IncomingStepIdempotent` and `IncomingStepConsistent` state its effect. |
| Upserts.TripleStep | src/backend/api.ts:159-191 | The definition of the `loadAll` body. `TripleStepIdempotent` and `TripleStepConsistent` state its effect. |
| Upserts.ObjectStepIdempotent | src/backend/api.ts:35-47 | Processing the same object twice in `getObjects` equals processing it once. |
| Upserts.OutgoingStepIdempotent | src/backend/api.ts:68-89 | Processing the same result twice in `getRelationsFrom` equals processing it once, with the same outcome. |
| Upserts.IncomingStepIdempotent | src/backend/api.ts:109-130 | Processing the same result twice in `getRelationsTo` equals processing it once, with the same outcome. |
| Upserts.TripleStepIdempotent | src/backend/api.ts:159-191 | Processing the same result twice in `loadAll` equals processing it once, with the same outcome. |
| Upserts.ObjectStepConsistent | src/backend/api.ts:35-47 | The `getObjects` body keeps node ids unique, edge ids unique and every handle in range. |
| Upserts.OutgoingStepConsistent | src/backend/api.ts:68-89 | The `getRelationsFrom` body keeps ids unique and every handle in range, given that the source is a node. |
| Upserts.IncomingStepConsistent | src/backend/api.ts:109-130 | The `getRelationsTo` body keeps ids unique and every handle in range, given that the target is a node. |
| Upserts.TripleStepConsistent | src/backend/api.ts:159-191 | The `loadAll` body keeps ids unique and every handle in range. |
| Upserts.EachObject | src/backend/api.ts:32-48 | The definition of the `getObjects` walk as a fold. `ObjectsOnlyAppend`, `ObjectsPresent`, `ObjectsAllPresent` and `ObjectsIdempotent` state its effect. |
| Upserts.EachOutgoing | src/backend/api.ts:65-91 | The definition of the `getRelationsFrom` walk, ending at the first exception. `ExpandSequence` relates it to `expandRelations`. |
| Upserts.EachIncoming | src/backend/api.ts:106-132 | The definition of the `getRelationsTo` walk, ending at the first exception. `ExpandSequence` relates it to `expandRelations`. |
| Upserts.EachTriple | src/backend/api.ts:157-193 | The definition of the `loadAll` walk, ending at the first exception. `LoadAllKeepsSelection` states its effect on the selection. |
| Upserts.LoadAllKeepsSelection | src/backend/api.ts:157-193 | `loadAll` never touches the selection. |
| Upserts.ObjectsOnlyAppend | src/backend/api.ts:32-48 | `getObjects` only appends: the old nodes and the old selection are prefixes of the new ones, and the edges are unchanged. |
| Upserts.ObjectsPresent | src/backend/api.ts:32-48 | After `getObjects`, every object's id is the id of some node. |
| Upserts.ObjectsAllPresent | src/backend/api.ts:32-48 | Objects whose ids are all present leave the view unchanged. |
| Upserts.ObjectsIdempotent | src/backend/api.ts:32-48 | Running `getObjects` again on the same results changes nothing. |
| Upserts.Expand | src/backend/api.ts:135-145 | The definition of `expandRelations` on the canvas value. The incoming walk runs whenever it is asked for, even after an outgoing body threw, because that exception never reaches the promise `getRelationsFrom` returns. `ExpandNothing` and `ExpandSequence` state its effect. |
| Upserts.ExpandNothing | src/backend/api.ts:137-144 | With both directions off, `expandRelations` changes nothing. |
| Upserts.ExpandSequence | src/backend/api.ts:137-144 | The outgoing results are processed exactly when asked, and the incoming ones exactly when asked. With both directions on, the incoming walk starts from the canvas the outgoing walk left, whether or not an outgoing body threw. |
| Upserts.Sample | src/backend/api.ts:196-235 | The definition of the graph `loadModel` builds. `SampleShape` states its contents. |
| Upserts.SampleShape | src/backend/api.ts:196-235 | `loadModel` gives exactly three nodes (labels, positions, 40×30) and two `relation` edges, both from the first node, to the second and to the third. Nothing is selected, and with distinct ids the canvas is consistent. |
| Upserts.GraphicalView.FindOrCreateNode | src/backend/api.ts:35-47 | The in-place node half equals `UpsertNode`. |
| Upserts.GraphicalView.FindOrCreateEdge | src/backend/api.ts:82-89 | The in-place edge half equals `UpsertEdge`, including the exception. |
| Upserts.GraphicalView.GetObjects | src/backend/api.ts:32-49 | The loop over the results equals the fold `EachObject`. |
| Upserts.GraphicalView.GetRelationsFrom | src/backend/api.ts:65-91 | The loop equals `EachOutgoing`, stopping at the first exception. |
| Upserts.GraphicalView.GetRelationsTo | src/backend/api.ts:106-132 | The loop equals `EachIncoming`, stopping at the first exception. |
| Upserts.GraphicalView.LoadAll | src/backend/api.ts:157-193 | The loop equals `EachTriple`, stopping at the first exception. |
| Upserts.GraphicalView.ExpandRelations | src/backend/api.ts:135-145 | The two walks, the second run whenever it is asked for, equal `Expand`. |
| Upserts.GraphicalView.LoadModel | src/backend/api.ts:196-239 | The successive pushes after clearing give exactly `Sample` of the five ids. |

## Left out

- **Force layout:** `ForceLayout` (`src/wmf/model/view-model.ts:6, 30`) and `view.layout.stop()` (`src/backend/api.ts:21`) are outside this model. They run an asynchronous floating-point simulation.
- **Database access:** the arangojs database, basic authentication, `aql` query building, `db.query`, promises and `console.log` (`src/backend/api.ts:1-31, 54-64, 96-105, 149-156`) are left out.
  - Every batch takes its already-decoded results as a sequence.
  - An exception in a record body stops that walk, and the `failed` / `threw` flag reports it. The walk's promise is not returned from the `then` callback, so the promise each operation returns never sees the exception.
  - Each walk is treated as one atomic step. With more results than one cursor batch, the cursor's `each` waits for the next batch, so in `expandRelations` the remaining outgoing results could interleave with the incoming walk. That interleaving is not modelled.
- **`uuid()`** (`src/backend/api.ts:202, 211, 220, 229, 234`) is a parameter: `LoadModel` takes the five ids. Their distinctness is a hypothesis of the last clause of `SampleShape`.
- **`Math.random()` default positions** (`src/wmf/model/view-model.ts:109-110`) are `Point` parameters: `at` for `AddNode`, and `sourceAt`/`targetAt` for the dummy nodes of `AddEdge`.
- **MobX:** `transaction`, `@observable`, `@computed` and `@action` are left out. Each public method is one atomic transition, and each getter is a function of the current fields.
- **Presentational members:** `nodeColor`, `nodeMenu`, `contextMenuActiveFor`, `getEditor`, `getView` and the `label` getters (which return `name`) are left out.
- **`Editor.toggleSelection`** is not part of this model. It is taken to remove every occurrence of an id that is selected and to append one that is not (`Selection.Toggled`).
- **`MModel`, `MObject` and `MRelation`** are not part of this model. The entity constructors are taken to store the type, name and id they are given.
  - Omitted optional `name` and `id` arguments are not modelled: the model always passes strings.
- **Edge geometry:** `ViewEdge` inherits position and size fields from `ViewNode`. Nothing modelled reads them, so edge elements carry only their endpoints and, for a segment, the edge it replaces.
- **Floating point:** positions, sizes and the camera are exact reals, so the rounding of JavaScript numbers is not modelled.
  - A zero width, where the zoom factor is infinite in JavaScript, is modelled as a zoom shift of 0.
- **Graphical view model of the back end:** `src/backend/api.ts` builds entities of the view model in `src/graphics/model/view-model`, which is not part of this model. Its entities are represented by `VNode` and `VEdge`:
  - A field a constructor fills and the body never sets is `ConstructorDefault` (placement) or `None`.
  - `view.selection`, which receives node objects, holds node handles.
  - `view.clear()` is taken to empty the three arrays.
- **Record validity:** records are taken to be decoded objects with `meta.category` and a `meta.types` list. A missing `meta` is not modelled.
  - A relation with fewer than two types is modelled as the exception that `replace` on `undefined` throws.
  - An object with no types gives `undefined` type and shape (`None`).
- **React components** (`src/App.tsx`, `src/components/SelectForm.tsx`, `src/graphics/ui/GraphicNode.tsx`): their batch deletes, selection handling and drag handling are user-interface code around `delete` and `toggleSelection`, and are not modelled.
