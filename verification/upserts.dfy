/**
 * The record processing of the back end: each result record of a database query is
 * folded into the graphical view by a find-by-id-or-create step over its `nodes`,
 * `edges` and `selection` arrays. Records arrive already decoded; the queries, the
 * promises and the database are outside the model. A node is referred to by its
 * position in `nodes` (the arrays only grow here, so a position names one object).
 */
module Upserts {
  import opened Options
  import opened Seqs

  /** An object reference: the position of the node in `nodes`. */
  type Handle = int

  /** Where a node is placed: by the node constructor (not part of this model) or explicitly. */
  datatype Placement = ConstructorDefault | At(x: real, y: real)

  /**
   * A node of the graphical view. `None` in `layer`, `typeTag` or `shape` is a field that
   * was never given a string: left to the constructor, or assigned `undefined`.
   */
  datatype VNode = VNode(id: string, caption: string, layer: Option<string>, typeTag: Option<string>,
                         shape: Option<string>, place: Placement, width: real, height: real)

  /** An edge of the graphical view, between two nodes given by handle. */
  datatype VEdge = VEdge(id: string, caption: string, typeTag: Option<string>, source: Handle, target: Handle)

  /** The three arrays of the graphical view the records are folded into. */
  datatype Canvas = Canvas(nodes: seq<VNode>, edges: seq<VEdge>, selection: seq<Handle>)

  /** A decoded object document: `id`, `name`, `meta.category`, `meta.types`. */
  datatype Obj = Obj(id: string, name: string, category: string, types: seq<string>)

  /** A decoded relation document: `id`, `meta.types`. */
  datatype Rel = Rel(id: string, types: seq<string>)

  /** One result of a one-step traversal: the relation and the node at its other end. */
  datatype Hop = Hop(relation: Rel, other: Obj)

  /** One result of the load-everything query. */
  datatype Triple = Triple(source: Obj, relation: Rel, target: Obj)

  /** The two switches of the expansion filter that choose the directions. */
  datatype Filter = Filter(outgoing: bool, incoming: bool)

  const NodeWidth: real := 40.0
  const NodeHeight: real := 30.0

  /** The substring the edge label drops from the relation type. */
  const RelationWord: string := "Relation"

  // ---------------------------------------------------------------- String.prototype.replace

  /** `pat` occurs in `s` starting at `j`. */
  predicate OccursAt(s: string, pat: string, j: int) {
    0 <= j && j + |pat| <= |s| && s[j..j + |pat|] == pat
  }

  /** An occurrence in the tail is an occurrence one place further on in the whole string. */
  lemma ShiftOccurrence(s: string, pat: string)
    requires s != []
    ensures forall j :: 0 <= j ==> (OccursAt(s[1..], pat, j) <==> OccursAt(s, pat, j + 1))
    ensures forall j :: 1 <= j ==> (OccursAt(s, pat, j) <==> OccursAt(s[1..], pat, j - 1))
  {
    forall j | 0 <= j ensures OccursAt(s[1..], pat, j) <==> OccursAt(s, pat, j + 1) {
      if j + 1 + |pat| <= |s| {
        assert s[1..][j..j + |pat|] == s[j + 1..j + 1 + |pat|];
      }
    }
    forall j | 1 <= j ensures OccursAt(s, pat, j) <==> OccursAt(s[1..], pat, j - 1) {
      if j + |pat| <= |s| {
        assert s[1..][j - 1..j - 1 + |pat|] == s[j..j + |pat|];
      }
    }
  }

  /**
   * `s.replace(pat, '')` with a string pattern: the first occurrence of `pat` is cut out;
   * walking from the left, the first place where `pat` is a prefix is where it goes.
   */
  function RemoveFirst(s: string, pat: string): (r: string)
    ensures |r| == |s| || |r| == |s| - |pat|
    decreases |s|
  {
    if |pat| <= |s| && s[..|pat|] == pat then s[|pat|..]
    else if s == [] then s
    else [s[0]] + RemoveFirst(s[1..], pat)
  }

  /** With no occurrence of the pattern, the string is unchanged. */
  lemma {:induction false} RemoveFirstWithout(s: string, pat: string)
    requires forall j :: 0 <= j <= |s| ==> !OccursAt(s, pat, j)
    ensures RemoveFirst(s, pat) == s
    decreases |s|
  {
    assert !OccursAt(s, pat, 0);
    if s != [] {
      ShiftOccurrence(s, pat);
      RemoveFirstWithout(s[1..], pat);
      assert [s[0]] + s[1..] == s;
    }
  }

  /** Exactly the characters of the first occurrence of the pattern are removed. */
  lemma {:induction false} RemoveFirstAt(s: string, pat: string, i: int)
    requires OccursAt(s, pat, i) && forall j :: 0 <= j < i ==> !OccursAt(s, pat, j)
    ensures RemoveFirst(s, pat) == s[..i] + s[i + |pat|..]
    decreases |s|
  {
    if i == 0 {
      assert s[..0] + s[|pat|..] == s[|pat|..];
    } else {
      assert !OccursAt(s, pat, 0);
      ShiftOccurrence(s, pat);
      RemoveFirstAt(s[1..], pat, i - 1);
      ConsCut(s, i - 1, |pat|);
    }
  }

  /** A prefix in which the pattern's first character does not occur is kept as it is. */
  lemma {:induction false} RemoveFirstSkips(p: string, q: string, pat: string)
    requires pat != [] && pat[0] !in p
    ensures RemoveFirst(p + q, pat) == p + RemoveFirst(q, pat)
    decreases |p|
  {
    if p != [] {
      assert (p + q)[0] == p[0];
      if |pat| <= |p + q| {
        assert (p + q)[..|pat|][0] != pat[0];
      }
      assert (p + q)[1..] == p[1..] + q;
      RemoveFirstSkips(p[1..], q, pat);
    } else {
      assert p + q == q;
    }
  }

  /** A relation of type `compositionRelation` is labelled `composition`. */
  lemma RelationLabelDropsWord()
    ensures RemoveFirst("compositionRelation", RelationWord) == "composition"
  {
    RemoveFirstSkips("composition", RelationWord, RelationWord);
    assert "composition" + RelationWord == "compositionRelation";
  }

  /** Only the first `Relation` goes. */
  lemma RelationLabelFirstOnly()
    ensures RemoveFirst("RelationRelation", RelationWord) == "Relation"
  {
    assert "RelationRelation"[..8] == RelationWord;
  }

  /** A type without `Relation` is its own label. */
  lemma RelationLabelUnchanged()
    ensures RemoveFirst("flow", RelationWord) == "flow"
  {
    RemoveFirstSkips("flow", "", RelationWord);
    assert "flow" + "" == "flow";
  }

  // ---------------------------------------------------------------- lookups and records

  /** The ids of a list of nodes or edges, in order. */
  function Ids<T>(s: seq<T>, id: T -> string): (ids: seq<string>)
    ensures |ids| == |s| && forall k :: 0 <= k < |s| ==> ids[k] == id(s[k])
  {
    seq(|s|, k requires 0 <= k < |s| => id(s[k]))
  }

  function NodeId(n: VNode): string { n.id }
  function EdgeId(e: VEdge): string { e.id }

  /**
   * `nodes.find((x) => id === x.id)`, as a handle: the first node carrying the id, or
   * `None` for `undefined`.
   */
  function FindNode(nodes: seq<VNode>, id: string): (r: Option<Handle>)
    ensures r.None? <==> forall k :: 0 <= k < |nodes| ==> nodes[k].id != id
    ensures r.Some? ==> 0 <= r.value < |nodes| && nodes[r.value].id == id
    ensures r.Some? ==> forall k :: 0 <= k < r.value ==> nodes[k].id != id
  {
    var k := IndexOf(Ids(nodes, NodeId), id);
    assert forall j :: 0 <= j < k ==> Ids(nodes, NodeId)[..k][j] == nodes[j].id;
    if k == -1 then
      assert forall j :: 0 <= j < |nodes| ==> Ids(nodes, NodeId)[j] in Ids(nodes, NodeId);
      None
    else Some(k)
  }

  /** `edges.find((x) => id === x.id) !== undefined`. */
  predicate HasEdge(edges: seq<VEdge>, id: string) {
    id in Ids(edges, EdgeId)
  }

  /** `meta.types[0]`, which is `undefined` on an empty list. */
  function FirstType(types: seq<string>): Option<string> {
    if |types| > 0 then Some(types[0]) else None
  }

  /** The node every upsert creates for an object it does not find: 40 by 30. */
  function NodeFor(o: Obj): VNode {
    VNode(o.id, o.name, Some(o.category), FirstType(o.types), FirstType(o.types), ConstructorDefault,
          NodeWidth, NodeHeight)
  }

  /** The edge an upsert creates for a relation it does not find. */
  function EdgeFor(r: Rel, source: Handle, target: Handle): VEdge
    requires |r.types| >= 2
  {
    VEdge(r.id, RemoveFirst(r.types[1], RelationWord), Some(r.types[1]), source, target)
  }

  // ---------------------------------------------------------------- the record steps

  /**
   * The node half of every record body: find the node with the object's id, or create
   * it, push it onto `nodes` and, when `select` holds, onto `selection`. The result is
   * the new canvas and the found or created node.
   */
  function UpsertNode(c: Canvas, o: Obj, select: bool): (Canvas, Handle) {
    match FindNode(c.nodes, o.id)
    case Some(k) => (c, k)
    case None =>
      var h := |c.nodes|;
      (c.(nodes := c.nodes + [NodeFor(o)], selection := if select then c.selection + [h] else c.selection), h)
  }

  /**
   * The edge half of the relation bodies: find the edge with the relation's id, or
   * create it from `source` to `target` and push it onto `edges`. Creating it reads
   * `meta.types[1].replace(...)`, which throws when the list has fewer than two types;
   * the flag reports that exception (nothing is pushed then).
   */
  function UpsertEdge(c: Canvas, r: Rel, source: Handle, target: Handle): (Canvas, bool) {
    if HasEdge(c.edges, r.id) then (c, false)
    else if |r.types| < 2 then (c, true)
    else (c.(edges := c.edges + [EdgeFor(r, source, target)]), false)
  }

  /** The body of `getObjects` for one object: upsert its node, selecting it when created. */
  function ObjectStep(c: Canvas, o: Obj): Canvas {
    UpsertNode(c, o, true).0
  }

  /** The body of `getRelationsFrom` for one result: upsert the target, then the edge from `source`. */
  function OutgoingStep(c: Canvas, source: Handle, hop: Hop): (Canvas, bool) {
    var (c1, t) := UpsertNode(c, hop.other, true);
    UpsertEdge(c1, hop.relation, source, t)
  }

  /** The body of `getRelationsTo` for one result: upsert the source, then the edge to `target`. */
  function IncomingStep(c: Canvas, target: Handle, hop: Hop): (Canvas, bool) {
    var (c1, s) := UpsertNode(c, hop.other, true);
    UpsertEdge(c1, hop.relation, s, target)
  }

  /** The body of `loadAll` for one result: upsert both ends (never selecting) and the edge. */
  function TripleStep(c: Canvas, t: Triple): (Canvas, bool) {
    var (c1, s) := UpsertNode(c, t.source, false);
    var (c2, u) := UpsertNode(c1, t.target, false);
    UpsertEdge(c2, t.relation, s, u)
  }

  // ---------------------------------------------------------------- the batches

  /** `array.each` over the objects of `getObjects`. */
  function EachObject(c: Canvas, objs: seq<Obj>): Canvas
    decreases |objs|
  {
    if objs == [] then c else EachObject(ObjectStep(c, objs[0]), objs[1..])
  }

  /**
   * `array.each` over the results of `getRelationsFrom`; an exception in one body ends
   * the walk, so later results are not processed, and the flag reports it. The promise
   * of `each` is not returned from the `then` callback, so the promise the operation
   * returns does not see the exception.
   */
  function EachOutgoing(c: Canvas, source: Handle, hops: seq<Hop>): (Canvas, bool)
    decreases |hops|
  {
    if hops == [] then (c, false)
    else
      var (c1, failed) := OutgoingStep(c, source, hops[0]);
      if failed then (c1, true) else EachOutgoing(c1, source, hops[1..])
  }

  /** `array.each` over the results of `getRelationsTo`, ending at an exception. */
  function EachIncoming(c: Canvas, target: Handle, hops: seq<Hop>): (Canvas, bool)
    decreases |hops|
  {
    if hops == [] then (c, false)
    else
      var (c1, failed) := IncomingStep(c, target, hops[0]);
      if failed then (c1, true) else EachIncoming(c1, target, hops[1..])
  }

  /** `array.each` over the results of `loadAll`, ending at an exception. */
  function EachTriple(c: Canvas, triples: seq<Triple>): (Canvas, bool)
    decreases |triples|
  {
    if triples == [] then (c, false)
    else
      var (c1, failed) := TripleStep(c, triples[0]);
      if failed then (c1, true) else EachTriple(c1, triples[1..])
  }

  /**
   * `expandRelations`: the outgoing results when `filter.outgoing`, then, chained on that
   * promise, the incoming results when `filter.incoming`. An exception in an outgoing
   * body only stops the outgoing walk: the promise `getRelationsFrom` returns still
   * resolves, so the incoming step runs all the same.
   */
  function Expand(c: Canvas, node: Handle, filter: Filter, outs: seq<Hop>, ins: seq<Hop>): Canvas {
    var c1 := if filter.outgoing then EachOutgoing(c, node, outs).0 else c;
    if filter.incoming then EachIncoming(c1, node, ins).0 else c1
  }

  /**
   * `loadModel` after `view.clear()` (taken to empty the three arrays): three nodes and
   * two edges from the first node, with the five ids `uuid()` gives.
   */
  function Sample(ids: seq<string>): Canvas
    requires |ids| == 5
  {
    var n1 := VNode(ids[0], "First Element", None, None, None, At(300.0, 200.0), NodeWidth, NodeHeight);
    var n2 := VNode(ids[1], "Second Element", None, None, None, At(600.0, 400.0), NodeWidth, NodeHeight);
    var n3 := VNode(ids[2], "Third Element", None, None, None, At(500.0, 300.0), NodeWidth, NodeHeight);
    var e1 := VEdge(ids[3], "relation", None, 0, 1);
    var e2 := VEdge(ids[4], "relation", None, 0, 2);
    Canvas([n1, n2, n3], [e1, e2], [])
  }

  // ---------------------------------------------------------------- invariants

  /** No two nodes share an id, no two edges share an id, and every handle names a node. */
  predicate Consistent(c: Canvas) {
    && NoDups(Ids(c.nodes, NodeId)) && NoDups(Ids(c.edges, EdgeId))
    && (forall k :: 0 <= k < |c.edges| ==> 0 <= c.edges[k].source < |c.nodes| && 0 <= c.edges[k].target < |c.nodes|)
    && (forall k :: 0 <= k < |c.selection| ==> 0 <= c.selection[k] < |c.nodes|)
  }

  /** Pushing an element pushes its id. */
  lemma IdsAppend<T>(s: seq<T>, x: T, id: T -> string)
    ensures Ids(s + [x], id) == Ids(s, id) + [id(x)]
  {
    assert Ids(s + [x], id) == Ids(s, id) + [id(x)];
  }

  // ---------------------------------------------------------------- properties of one step

  /**
   * The node step on an id already present changes nothing (in particular neither
   * `nodes` nor `selection`) and answers the first node with that id.
   */
  lemma UpsertNodeFound(c: Canvas, o: Obj, select: bool, k: Handle)
    requires 0 <= k < |c.nodes| && c.nodes[k].id == o.id
    ensures UpsertNode(c, o, select).0 == c
    ensures var h := UpsertNode(c, o, select).1; 0 <= h <= k && c.nodes[h].id == o.id
  {
  }

  /**
   * On a new id the node step appends exactly one node, with id `obj.id`, label
   * `obj.name`, layer `meta.category`, type and shape `meta.types[0]` and size 40 by 30;
   * it is selected exactly when `select` holds; the edges stay.
   */
  lemma UpsertNodeCreates(c: Canvas, o: Obj, select: bool)
    requires forall k :: 0 <= k < |c.nodes| ==> c.nodes[k].id != o.id
    ensures var (c', h) := UpsertNode(c, o, select);
      && h == |c.nodes| && c'.nodes == c.nodes + [c'.nodes[h]] && c'.edges == c.edges
      && c'.nodes[h].id == o.id && c'.nodes[h].caption == o.name && c'.nodes[h].layer == Some(o.category)
      && c'.nodes[h].typeTag == c'.nodes[h].shape
      && (|o.types| > 0 ==> c'.nodes[h].typeTag == Some(o.types[0]))
      && (|o.types| == 0 ==> c'.nodes[h].typeTag == None)
      && c'.nodes[h].width == 40.0 && c'.nodes[h].height == 30.0
      && c'.selection == (if select then c.selection + [h] else c.selection)
  {
  }

  /** The node step never appends a node whose id is already present, and keeps ids unique. */
  lemma UpsertNodeFresh(c: Canvas, o: Obj, select: bool)
    requires Consistent(c)
    ensures var (c', h) := UpsertNode(c, o, select);
      && Consistent(c') && 0 <= h < |c'.nodes| && c'.nodes[h].id == o.id
      && c'.edges == c.edges
      && (|c'.nodes| > |c.nodes| ==> o.id !in Ids(c.nodes, NodeId))
  {
    if FindNode(c.nodes, o.id).None? {
      IdsAppend(c.nodes, NodeFor(o), NodeId);
      AppendFresh(Ids(c.nodes, NodeId), o.id);
    }
  }

  /**
   * The edge step on an id already present changes nothing; on a new id it either throws
   * (fewer than two types) and changes nothing, or appends exactly one edge from
   * `source` to `target`, of type `meta.types[1]`, labelled with that type minus its
   * first `Relation`.
   */
  lemma UpsertEdgeOutcome(c: Canvas, r: Rel, source: Handle, target: Handle)
    ensures var (c', threw) := UpsertEdge(c, r, source, target);
      && c'.nodes == c.nodes && c'.selection == c.selection
      && (HasEdge(c.edges, r.id) ==> c' == c && !threw)
      && (!HasEdge(c.edges, r.id) && |r.types| < 2 ==> c' == c && threw)
      && (!HasEdge(c.edges, r.id) && |r.types| >= 2 ==>
            && !threw && |c'.edges| == |c.edges| + 1 && c'.edges[..|c.edges|] == c.edges
            && c'.edges[|c.edges|] == VEdge(r.id, RemoveFirst(r.types[1], RelationWord), Some(r.types[1]), source, target))
  {
    if !HasEdge(c.edges, r.id) && |r.types| >= 2 {
      assert (c.edges + [EdgeFor(r, source, target)])[..|c.edges|] == c.edges;
    }
  }

  /** The edge step never appends an edge whose id is already present, and keeps ids unique. */
  lemma UpsertEdgeFresh(c: Canvas, r: Rel, source: Handle, target: Handle)
    requires Consistent(c) && 0 <= source < |c.nodes| && 0 <= target < |c.nodes|
    ensures Consistent(UpsertEdge(c, r, source, target).0)
    ensures HasEdge(UpsertEdge(c, r, source, target).0.edges, r.id) || UpsertEdge(c, r, source, target).1
  {
    if !HasEdge(c.edges, r.id) && |r.types| >= 2 {
      var e := EdgeFor(r, source, target);
      IdsAppend(c.edges, e, EdgeId);
      AppendFresh(Ids(c.edges, EdgeId), r.id);
    }
  }

  /**
   * `getRelationsFrom`, one result: the target is found or created (and then selected),
   * and an edge created from the given node runs to that target.
   */
  lemma OutgoingEdge(c: Canvas, source: Handle, hop: Hop)
    requires !HasEdge(c.edges, hop.relation.id) && |hop.relation.types| >= 2
    ensures var (c', threw) := OutgoingStep(c, source, hop);
      var t := UpsertNode(c, hop.other, true).1;
      && !threw && c'.nodes[t].id == hop.other.id && c'.edges == c.edges + [c'.edges[|c.edges|]]
      && c'.edges[|c.edges|].source == source && c'.edges[|c.edges|].target == t
      && c'.edges[|c.edges|].typeTag == Some(hop.relation.types[1])
      && c'.edges[|c.edges|].caption == RemoveFirst(hop.relation.types[1], RelationWord)
  {
  }

  /** `getRelationsTo`, one result: symmetric, the edge runs from the found or created source to the given node. */
  lemma IncomingEdge(c: Canvas, target: Handle, hop: Hop)
    requires !HasEdge(c.edges, hop.relation.id) && |hop.relation.types| >= 2
    ensures var (c', threw) := IncomingStep(c, target, hop);
      var s := UpsertNode(c, hop.other, true).1;
      && !threw && c'.nodes[s].id == hop.other.id && c'.edges == c.edges + [c'.edges[|c.edges|]]
      && c'.edges[|c.edges|].source == s && c'.edges[|c.edges|].target == target
      && c'.edges[|c.edges|].typeTag == Some(hop.relation.types[1])
      && c'.edges[|c.edges|].caption == RemoveFirst(hop.relation.types[1], RelationWord)
  {
  }

  /** After the node step, `find` answers the node the step answered. */
  lemma UpsertNodeFinds(c: Canvas, o: Obj, select: bool)
    ensures var (c1, h) := UpsertNode(c, o, select); FindNode(c1.nodes, o.id) == Some(h)
  {
    var (c1, h) := UpsertNode(c, o, select);
    if FindNode(c.nodes, o.id).None? {
      assert c1.nodes[h].id == o.id;
      assert forall k :: 0 <= k < h ==> c1.nodes[k] == c.nodes[k];
    }
  }

  /** The node step keeps answering what `find` answered before it, for every id. */
  lemma UpsertNodeKeepsFinds(c: Canvas, o: Obj, select: bool, id: string, h: Handle)
    requires FindNode(c.nodes, id) == Some(h)
    ensures FindNode(UpsertNode(c, o, select).0.nodes, id) == Some(h)
  {
    var c1 := UpsertNode(c, o, select).0;
    assert forall k :: 0 <= k < |c.nodes| ==> c1.nodes[k] == c.nodes[k];
  }

  /** After the edge step, the same step changes nothing more and reports the same outcome. */
  lemma UpsertEdgeAgain(c: Canvas, r: Rel, source: Handle, target: Handle)
    ensures var (c1, threw) := UpsertEdge(c, r, source, target); UpsertEdge(c1, r, source, target) == (c1, threw)
  {
    if !HasEdge(c.edges, r.id) && |r.types| >= 2 {
      var e := EdgeFor(r, source, target);
      IdsAppend(c.edges, e, EdgeId);
    }
  }

  /** Processing the same object twice in `getObjects` is processing it once. */
  lemma ObjectStepIdempotent(c: Canvas, o: Obj)
    ensures ObjectStep(ObjectStep(c, o), o) == ObjectStep(c, o)
  {
    UpsertNodeFinds(c, o, true);
  }

  /** Processing the same result twice in `getRelationsFrom` is processing it once. */
  lemma OutgoingStepIdempotent(c: Canvas, source: Handle, hop: Hop)
    ensures var (c1, threw) := OutgoingStep(c, source, hop); OutgoingStep(c1, source, hop) == (c1, threw)
  {
    var (c1, t) := UpsertNode(c, hop.other, true);
    UpsertNodeFinds(c, hop.other, true);
    UpsertEdgeAgain(c1, hop.relation, source, t);
    UpsertEdgeOutcome(c1, hop.relation, source, t);
  }

  /** Processing the same result twice in `getRelationsTo` is processing it once. */
  lemma IncomingStepIdempotent(c: Canvas, target: Handle, hop: Hop)
    ensures var (c1, threw) := IncomingStep(c, target, hop); IncomingStep(c1, target, hop) == (c1, threw)
  {
    var (c1, s) := UpsertNode(c, hop.other, true);
    UpsertNodeFinds(c, hop.other, true);
    UpsertEdgeAgain(c1, hop.relation, s, target);
    UpsertEdgeOutcome(c1, hop.relation, s, target);
  }

  /** Processing the same result twice in `loadAll` is processing it once. */
  lemma TripleStepIdempotent(c: Canvas, t: Triple)
    ensures var (c1, threw) := TripleStep(c, t); TripleStep(c1, t) == (c1, threw)
  {
    var (c1, s) := UpsertNode(c, t.source, false);
    var (c2, u) := UpsertNode(c1, t.target, false);
    UpsertNodeFinds(c, t.source, false);
    UpsertNodeKeepsFinds(c1, t.target, false, t.source.id, s);
    UpsertNodeFinds(c1, t.target, false);
    UpsertEdgeAgain(c2, t.relation, s, u);
    UpsertEdgeOutcome(c2, t.relation, s, u);
  }

  /** The body of `getObjects` keeps ids unique and handles in range. */
  lemma ObjectStepConsistent(c: Canvas, o: Obj)
    requires Consistent(c)
    ensures Consistent(ObjectStep(c, o))
  {
    UpsertNodeFresh(c, o, true);
  }

  /** The body of `getRelationsFrom` keeps ids unique and handles in range. */
  lemma OutgoingStepConsistent(c: Canvas, source: Handle, hop: Hop)
    requires Consistent(c) && 0 <= source < |c.nodes|
    ensures Consistent(OutgoingStep(c, source, hop).0)
  {
    UpsertNodeFresh(c, hop.other, true);
    var (c1, h) := UpsertNode(c, hop.other, true);
    UpsertEdgeFresh(c1, hop.relation, source, h);
  }

  /** The body of `getRelationsTo` keeps ids unique and handles in range. */
  lemma IncomingStepConsistent(c: Canvas, target: Handle, hop: Hop)
    requires Consistent(c) && 0 <= target < |c.nodes|
    ensures Consistent(IncomingStep(c, target, hop).0)
  {
    UpsertNodeFresh(c, hop.other, true);
    var (c1, h) := UpsertNode(c, hop.other, true);
    UpsertEdgeFresh(c1, hop.relation, h, target);
  }

  /** The body of `loadAll` keeps ids unique and handles in range. */
  lemma TripleStepConsistent(c: Canvas, t: Triple)
    requires Consistent(c)
    ensures Consistent(TripleStep(c, t).0)
  {
    UpsertNodeFresh(c, t.source, false);
    var (d1, s) := UpsertNode(c, t.source, false);
    UpsertNodeFresh(d1, t.target, false);
    var (d2, u) := UpsertNode(d1, t.target, false);
    UpsertEdgeFresh(d2, t.relation, s, u);
  }

  // ---------------------------------------------------------------- properties of the batches

  /** `loadAll` creates nodes and edges but never touches the selection. */
  lemma {:induction false} LoadAllKeepsSelection(c: Canvas, triples: seq<Triple>)
    ensures EachTriple(c, triples).0.selection == c.selection
    decreases |triples|
  {
    if triples != [] {
      var t := triples[0];
      var (c1, s) := UpsertNode(c, t.source, false);
      var (c2, u) := UpsertNode(c1, t.target, false);
      UpsertEdgeOutcome(c2, t.relation, s, u);
      LoadAllKeepsSelection(TripleStep(c, t).0, triples[1..]);
    }
  }

  /** `getObjects` only appends: the old nodes and selection are prefixes of the new ones. */
  lemma {:induction false} ObjectsOnlyAppend(c: Canvas, objs: seq<Obj>)
    ensures var c' := EachObject(c, objs);
      && |c.nodes| <= |c'.nodes| && c'.nodes[..|c.nodes|] == c.nodes
      && |c.selection| <= |c'.selection| && c'.selection[..|c.selection|] == c.selection
      && c'.edges == c.edges
    decreases |objs|
  {
    if objs != [] {
      var c1 := ObjectStep(c, objs[0]);
      ObjectsOnlyAppend(c1, objs[1..]);
      var c' := EachObject(c1, objs[1..]);
      assert c'.nodes[..|c.nodes|] == c'.nodes[..|c1.nodes|][..|c.nodes|];
      assert c'.selection[..|c.selection|] == c'.selection[..|c1.selection|][..|c.selection|];
    }
  }

  /** After `getObjects`, every object's id is the id of some node. */
  lemma {:induction false} ObjectsPresent(c: Canvas, objs: seq<Obj>)
    ensures forall i :: 0 <= i < |objs| ==> FindNode(EachObject(c, objs).nodes, objs[i].id).Some?
    decreases |objs|
  {
    if objs != [] {
      var c1 := ObjectStep(c, objs[0]);
      var c' := EachObject(c1, objs[1..]);
      assert FindNode(c'.nodes, objs[0].id).Some? by {
        ObjectsOnlyAppend(c1, objs[1..]);
        var h := UpsertNode(c, objs[0], true).1;
        assert c1.nodes[h].id == objs[0].id;
        assert c'.nodes[h] == c'.nodes[..|c1.nodes|][h];
      }
      forall i | 0 < i < |objs| ensures FindNode(c'.nodes, objs[i].id).Some? {
        ObjectsPresent(c1, objs[1..]);
        assert objs[i] == objs[1..][i - 1];
      }
    }
  }

  /** Objects whose ids are all present leave the canvas as it is. */
  lemma {:induction false} ObjectsAllPresent(c: Canvas, objs: seq<Obj>)
    requires forall i :: 0 <= i < |objs| ==> FindNode(c.nodes, objs[i].id).Some?
    ensures EachObject(c, objs) == c
    decreases |objs|
  {
    if objs != [] {
      forall i | 0 <= i < |objs[1..]| ensures FindNode(c.nodes, objs[1..][i].id).Some? {
        assert objs[1..][i] == objs[i + 1];
      }
      ObjectsAllPresent(c, objs[1..]);
    }
  }

  /** Running `getObjects` again on the same results changes nothing. */
  lemma ObjectsIdempotent(c: Canvas, objs: seq<Obj>)
    ensures EachObject(EachObject(c, objs), objs) == EachObject(c, objs)
  {
    ObjectsPresent(c, objs);
    ObjectsAllPresent(EachObject(c, objs), objs);
  }

  /** With both directions switched off, `expandRelations` changes nothing. */
  lemma ExpandNothing(c: Canvas, node: Handle, outs: seq<Hop>, ins: seq<Hop>)
    ensures Expand(c, node, Filter(false, false), outs, ins) == c
  {
  }

  /**
   * `expandRelations` runs the outgoing results exactly when asked and the incoming ones
   * exactly when asked, after the outgoing ones, whether or not an outgoing body threw.
   */
  lemma ExpandSequence(c: Canvas, node: Handle, filter: Filter, outs: seq<Hop>, ins: seq<Hop>)
    ensures !filter.outgoing ==>
      Expand(c, node, filter, outs, ins) == (if filter.incoming then EachIncoming(c, node, ins).0 else c)
    ensures filter.outgoing && !filter.incoming ==> Expand(c, node, filter, outs, ins) == EachOutgoing(c, node, outs).0
    ensures filter.outgoing && filter.incoming ==>
      Expand(c, node, filter, outs, ins) == EachIncoming(EachOutgoing(c, node, outs).0, node, ins).0
  {
  }

  /**
   * `loadModel` yields exactly three nodes and two edges; both edges start at the first
   * node and end at the second and the third; nothing is selected.
   */
  lemma SampleShape(ids: seq<string>)
    requires |ids| == 5
    ensures var c := Sample(ids);
      && |c.nodes| == 3 && |c.edges| == 2 && c.selection == []
      && c.edges[0].source == 0 && c.edges[0].target == 1
      && c.edges[1].source == 0 && c.edges[1].target == 2
      && c.nodes[0].caption == "First Element" && c.nodes[0].place == At(300.0, 200.0)
      && c.nodes[1].caption == "Second Element" && c.nodes[1].place == At(600.0, 400.0)
      && c.nodes[2].caption == "Third Element" && c.nodes[2].place == At(500.0, 300.0)
      && (forall k :: 0 <= k < 3 ==> c.nodes[k].width == 40.0 && c.nodes[k].height == 30.0)
      && (forall k :: 0 <= k < 2 ==> c.edges[k].caption == "relation")
      && (NoDups(ids) ==> Consistent(c))
  {
    var c := Sample(ids);
    if NoDups(ids) {
      NoDupsDistinct(ids, 0, 1);
      NoDupsDistinct(ids, 0, 2);
      NoDupsDistinct(ids, 1, 2);
      NoDupsDistinct(ids, 3, 4);
      var a, b := Ids(c.nodes, NodeId), Ids(c.edges, EdgeId);
      assert a == [ids[0], ids[1], ids[2]] && b == [ids[3], ids[4]];
      DistinctNoDups(a);
      DistinctNoDups(b);
    }
  }

  // ---------------------------------------------------------------- the view, updated in place

  /** The graphical view's three arrays, which the record bodies push onto. */
  class GraphicalView {
    var nodes: seq<VNode>
    var edges: seq<VEdge>
    var selection: seq<Handle>

    function State(): Canvas
      reads this
    {
      Canvas(nodes, edges, selection)
    }

    constructor ()
      ensures State() == Canvas([], [], [])
    {
      nodes, edges, selection := [], [], [];
    }

    /** The node half of a record body, in place. */
    method FindOrCreateNode(o: Obj, select: bool) returns (h: Handle)
      modifies this
      ensures (State(), h) == UpsertNode(old(State()), o, select)
    {
      var found := FindNode(nodes, o.id);
      if found.Some? {
        h := found.value;
      } else {
        h := |nodes|;
        nodes := nodes + [NodeFor(o)];
        if select {
          selection := selection + [h];
        }
      }
    }

    /** The edge half of a relation body, in place; `threw` reports the exception. */
    method FindOrCreateEdge(r: Rel, source: Handle, target: Handle) returns (threw: bool)
      modifies this
      ensures (State(), threw) == UpsertEdge(old(State()), r, source, target)
    {
      threw := false;
      if !HasEdge(edges, r.id) {
        if |r.types| < 2 {
          threw := true;
        } else {
          edges := edges + [EdgeFor(r, source, target)];
        }
      }
    }

    /** `getObjects`, from the decoded results on. */
    method GetObjects(objs: seq<Obj>)
      modifies this
      ensures State() == EachObject(old(State()), objs)
    {
      var i := 0;
      while i < |objs|
        invariant 0 <= i <= |objs|
        invariant EachObject(State(), objs[i..]) == EachObject(old(State()), objs)
      {
        assert objs[i..][1..] == objs[i + 1..];
        var _ := FindOrCreateNode(objs[i], true);
        i := i + 1;
      }
    }

    /** `getRelationsFrom(source)`, from the decoded results on; `failed` reports that a body threw and the walk stopped. */
    method GetRelationsFrom(source: Handle, hops: seq<Hop>) returns (failed: bool)
      modifies this
      ensures (State(), failed) == EachOutgoing(old(State()), source, hops)
    {
      failed := false;
      var i := 0;
      while i < |hops| && !failed
        invariant 0 <= i <= |hops|
        invariant !failed ==> EachOutgoing(State(), source, hops[i..]) == EachOutgoing(old(State()), source, hops)
        invariant failed ==> (State(), true) == EachOutgoing(old(State()), source, hops)
      {
        assert hops[i..][1..] == hops[i + 1..];
        var t := FindOrCreateNode(hops[i].other, true);
        failed := FindOrCreateEdge(hops[i].relation, source, t);
        i := i + 1;
      }
    }

    /** `getRelationsTo(target)`, from the decoded results on; `failed` reports that a body threw and the walk stopped. */
    method GetRelationsTo(target: Handle, hops: seq<Hop>) returns (failed: bool)
      modifies this
      ensures (State(), failed) == EachIncoming(old(State()), target, hops)
    {
      failed := false;
      var i := 0;
      while i < |hops| && !failed
        invariant 0 <= i <= |hops|
        invariant !failed ==> EachIncoming(State(), target, hops[i..]) == EachIncoming(old(State()), target, hops)
        invariant failed ==> (State(), true) == EachIncoming(old(State()), target, hops)
      {
        assert hops[i..][1..] == hops[i + 1..];
        var s := FindOrCreateNode(hops[i].other, true);
        failed := FindOrCreateEdge(hops[i].relation, s, target);
        i := i + 1;
      }
    }

    /** `loadAll`, from the decoded results on; `failed` reports that a body threw and the walk stopped. */
    method LoadAll(triples: seq<Triple>) returns (failed: bool)
      modifies this
      ensures (State(), failed) == EachTriple(old(State()), triples)
    {
      failed := false;
      var i := 0;
      while i < |triples| && !failed
        invariant 0 <= i <= |triples|
        invariant !failed ==> EachTriple(State(), triples[i..]) == EachTriple(old(State()), triples)
        invariant failed ==> (State(), true) == EachTriple(old(State()), triples)
      {
        assert triples[i..][1..] == triples[i + 1..];
        var s := FindOrCreateNode(triples[i].source, false);
        var u := FindOrCreateNode(triples[i].target, false);
        failed := FindOrCreateEdge(triples[i].relation, s, u);
        i := i + 1;
      }
    }

    /** `expandRelations(node, filter)`, with the results of the two queries as inputs. */
    method ExpandRelations(node: Handle, filter: Filter, outs: seq<Hop>, ins: seq<Hop>)
      modifies this
      ensures State() == Expand(old(State()), node, filter, outs, ins)
    {
      if filter.outgoing {
        var _ := GetRelationsFrom(node, outs);
      }
      if filter.incoming {
        var _ := GetRelationsTo(node, ins);
      }
    }

    /** `loadModel`, with the five ids `uuid()` returns as inputs. */
    method LoadModel(ids: seq<string>)
      modifies this
      requires |ids| == 5
      ensures State() == Sample(ids)
    {
      nodes, edges, selection := [], [], [];
      var n1 := VNode(ids[0], "First Element", None, None, None, At(300.0, 200.0), NodeWidth, NodeHeight);
      nodes := nodes + [n1];
      var n2 := VNode(ids[1], "Second Element", None, None, None, At(600.0, 400.0), NodeWidth, NodeHeight);
      nodes := nodes + [n2];
      var n3 := VNode(ids[2], "Third Element", None, None, None, At(500.0, 300.0), NodeWidth, NodeHeight);
      nodes := nodes + [n3];
      edges := edges + [VEdge(ids[3], "relation", None, 0, 1)];
      edges := edges + [VEdge(ids[4], "relation", None, 0, 2)];
    }
  }
}
