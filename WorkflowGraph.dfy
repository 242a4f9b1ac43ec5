/** The pure list rewrites behind the workflow canvas of
    components/WorkflowEditor.tsx: `filter`, `map` and `find` over the node and
    edge lists, the drag arithmetic and the anchor points of drawn edges. */
module WorkflowGraph {

  import opened Base
  import opened Types

  // ---------------------------------------------------------------------------
  // Array.prototype.filter / find, and the node lookups built on them.

  /** `s.filter(keep)`: the elements of `s` that satisfy `keep`. */
  function Filter<T(!new)>(s: seq<T>, keep: T -> bool): (r: seq<T>)
    ensures |r| <= |s|
    ensures forall x :: x in r <==> x in s && keep(x)
  {
    if s == [] then []
    else (if keep(s[0]) then [s[0]] else []) + Filter(s[1..], keep)
  }

  /** Filtering works element by element, left to right: the result keeps the
      relative order of what it keeps. */
  lemma {:induction false} FilterConcat<T(!new)>(a: seq<T>, b: seq<T>, keep: T -> bool)
    ensures Filter(a + b, keep) == Filter(a, keep) + Filter(b, keep)
  {
    if a == [] {
      assert a + b == b;
    } else {
      assert (a + b)[0] == a[0];
      assert (a + b)[1..] == a[1..] + b;
      FilterConcat(a[1..], b, keep);
    }
  }

  /** A filter that rejects nothing returns its input unchanged. */
  lemma {:induction false} FilterKeepsAll<T(!new)>(s: seq<T>, keep: T -> bool)
    requires forall k :: 0 <= k < |s| ==> keep(s[k])
    ensures Filter(s, keep) == s
  {
    if s != [] {
      assert forall k :: 0 <= k < |s[1..]| ==> s[1..][k] == s[k + 1];
      FilterKeepsAll(s[1..], keep);
    }
  }

  /** `s.findIndex(p)`, with -1 as None. */
  function FindIndex<T>(s: seq<T>, p: T -> bool): (r: Option<nat>)
    ensures r.None? <==> forall k :: 0 <= k < |s| ==> !p(s[k])
    ensures r.Some? ==> r.value < |s| && p(s[r.value]) && forall k :: 0 <= k < r.value ==> !p(s[k])
  {
    if s == [] then None
    else if p(s[0]) then Some(0)
    else
      var r := FindIndex(s[1..], p);
      assert forall k :: 1 <= k < |s| ==> s[k] == s[1..][k - 1];
      if r.None? then None else Some(r.value + 1)
  }

  /** `s.find(p)`, with undefined as None. */
  function Find<T>(s: seq<T>, p: T -> bool): Option<T> {
    match FindIndex(s, p)
    case Some(i) => Some(s[i])
    case None => None
  }

  predicate HasNode(nodes: seq<WorkflowNode>, id: string) {
    exists n :: n in nodes && n.id == id
  }

  /** `nodes.find(n => n.id === id)`: the first node with that id. */
  function FindNode(nodes: seq<WorkflowNode>, id: string): (r: Option<WorkflowNode>)
    ensures r.None? <==> !HasNode(nodes, id)
    ensures r.Some? ==> r.value in nodes && r.value.id == id
  {
    Find(nodes, (n: WorkflowNode) => n.id == id)
  }

  /** `nodes.find(n => n.type === kind)`: the first node of that kind. */
  function FirstOfKind(nodes: seq<WorkflowNode>, kind: NodeKind): (r: Option<WorkflowNode>)
    ensures r.None? <==> !HasKind(nodes, kind)
    ensures r.Some? ==> r.value in nodes && r.value.kind == kind
  {
    var i := FindIndex(nodes, (n: WorkflowNode) => n.kind == kind);
    assert i.Some? ==> nodes[i.value].kind == kind;
    Find(nodes, (n: WorkflowNode) => n.kind == kind)
  }

  /** The first node of a kind is found where it stands. */
  lemma FirstOfKindAt(nodes: seq<WorkflowNode>, i: nat, kind: NodeKind)
    requires i < |nodes| && nodes[i].kind == kind
    requires forall j :: 0 <= j < i ==> nodes[j].kind != kind
    ensures FirstOfKind(nodes, kind) == Some(nodes[i])
  {
  }

  /** The first node with an id is found where it stands. */
  lemma FindNodeAt(nodes: seq<WorkflowNode>, i: nat, id: string)
    requires i < |nodes| && nodes[i].id == id
    requires forall j :: 0 <= j < i ==> nodes[j].id != id
    ensures FindNode(nodes, id) == Some(nodes[i])
  {
  }

  /** No two nodes share an id (true of the seed graph; ids come from a clock
      or are literals, so nothing in the code enforces it). */
  predicate UniqueIds(nodes: seq<WorkflowNode>) {
    forall i, j :: 0 <= i < |nodes| && 0 <= j < |nodes| && i != j ==> nodes[i].id != nodes[j].id
  }

  /** Every edge names existing nodes at both ends. */
  predicate EdgesClosed(nodes: seq<WorkflowNode>, edges: seq<WorkflowEdge>) {
    forall e :: e in edges ==> HasNode(nodes, e.source) && HasNode(nodes, e.target)
  }

  // ---------------------------------------------------------------------------
  // Deleting a node (components/WorkflowEditor.tsx, onDelete).

  /** `nodes.filter(n => n.id !== id)`. */
  function RemoveNode(nodes: seq<WorkflowNode>, id: string): (r: seq<WorkflowNode>)
    ensures forall n :: n in r <==> n in nodes && n.id != id
    ensures !HasNode(r, id)
  {
    Filter(nodes, (n: WorkflowNode) => n.id != id)
  }

  /** `edges.filter(e => e.source !== id && e.target !== id)`. */
  function RemoveIncidentEdges(edges: seq<WorkflowEdge>, id: string): (r: seq<WorkflowEdge>)
    ensures forall e :: e in r <==> e in edges && e.source != id && e.target != id
  {
    Filter(edges, (e: WorkflowEdge) => e.source != id && e.target != id)
  }

  /** Deleting a node and its incident edges keeps every edge's endpoints in
      the graph. */
  lemma DeletePreservesClosedEdges(nodes: seq<WorkflowNode>, edges: seq<WorkflowEdge>, id: string)
    requires EdgesClosed(nodes, edges)
    ensures EdgesClosed(RemoveNode(nodes, id), RemoveIncidentEdges(edges, id))
  {
    var nodes', edges' := RemoveNode(nodes, id), RemoveIncidentEdges(edges, id);
    forall e | e in edges' ensures HasNode(nodes', e.source) && HasNode(nodes', e.target) {
      var s :| s in nodes && s.id == e.source;
      var t :| t in nodes && t.id == e.target;
      assert s in nodes' && t in nodes';
    }
  }

  /** Deleting an id no node has changes neither list (given closed edges). */
  lemma DeleteAbsentIsNoOp(nodes: seq<WorkflowNode>, edges: seq<WorkflowEdge>, id: string)
    requires EdgesClosed(nodes, edges) && !HasNode(nodes, id)
    ensures RemoveNode(nodes, id) == nodes
    ensures RemoveIncidentEdges(edges, id) == edges
  {
    FilterKeepsAll(nodes, (n: WorkflowNode) => n.id != id);
    assert forall k :: 0 <= k < |edges| ==> edges[k] in edges;
    FilterKeepsAll(edges, (e: WorkflowEdge) => e.source != id && e.target != id);
  }

  /** Deleting keeps ids unique: the filter only drops nodes. */
  lemma {:induction false} RemoveNodeKeepsUniqueIds(nodes: seq<WorkflowNode>, id: string)
    requires UniqueIds(nodes)
    ensures UniqueIds(RemoveNode(nodes, id))
  {
    if nodes != [] {
      var tail := nodes[1..];
      UniqueIdsTail(nodes);
      RemoveNodeKeepsUniqueIds(tail, id);
      var rest := RemoveNode(tail, id);
      if nodes[0].id != id {
        forall n | n in rest ensures n.id != nodes[0].id {
          var k :| 0 <= k < |tail| && tail[k] == n;
          assert tail[k] == nodes[k + 1];
        }
        UniqueIdsCons(nodes[0], rest);
        assert RemoveNode(nodes, id) == [nodes[0]] + rest;
      } else {
        assert RemoveNode(nodes, id) == rest;
      }
    }
  }

  lemma UniqueIdsTail(nodes: seq<WorkflowNode>)
    requires nodes != [] && UniqueIds(nodes)
    ensures UniqueIds(nodes[1..])
  {
    var tail := nodes[1..];
    forall i, j | 0 <= i < |tail| && 0 <= j < |tail| && i != j ensures tail[i].id != tail[j].id {
      assert tail[i] == nodes[i + 1] && tail[j] == nodes[j + 1];
    }
  }

  lemma UniqueIdsCons(head: WorkflowNode, rest: seq<WorkflowNode>)
    requires UniqueIds(rest) && forall n :: n in rest ==> n.id != head.id
    ensures UniqueIds([head] + rest)
  {
    var r := [head] + rest;
    forall i, j | 0 <= i < |r| && 0 <= j < |r| && i != j ensures r[i].id != r[j].id {
      if i == 0 { assert r[j] == rest[j - 1]; assert rest[j - 1] in rest; }
      else if j == 0 { assert r[i] == rest[i - 1]; assert rest[i - 1] in rest; }
      else { assert r[i] == rest[i - 1] && r[j] == rest[j - 1]; }
    }
  }

  /** A rewrite that keeps every node's id in place keeps ids unique. */
  lemma SameIdsKeepUniqueIds(nodes: seq<WorkflowNode>, r: seq<WorkflowNode>)
    requires UniqueIds(nodes) && |r| == |nodes|
    requires forall k :: 0 <= k < |r| ==> r[k].id == nodes[k].id
    ensures UniqueIds(r)
  {
  }

  // ---------------------------------------------------------------------------
  // `nodes.map(n => n.id === id ? f(n) : n)` in its three uses.

  function UpdateWhere(nodes: seq<WorkflowNode>, id: string, f: WorkflowNode -> WorkflowNode): seq<WorkflowNode> {
    seq(|nodes|, k requires 0 <= k < |nodes| => if nodes[k].id == id then f(nodes[k]) else nodes[k])
  }

  /** onUpdate: the nodes with that id get the new data; ids, kinds, positions,
      the order and every other node are as before. */
  function ReplaceData(nodes: seq<WorkflowNode>, id: string, data: NodeData): (r: seq<WorkflowNode>)
    ensures |r| == |nodes|
    ensures forall k :: 0 <= k < |r| ==>
              r[k].id == nodes[k].id && r[k].kind == nodes[k].kind && r[k].position == nodes[k].position
    ensures forall k :: 0 <= k < |r| && nodes[k].id == id ==> r[k].data == data
    ensures forall k :: 0 <= k < |r| && nodes[k].id != id ==> r[k] == nodes[k]
  {
    UpdateWhere(nodes, id, (n: WorkflowNode) => n.(data := data))
  }

  /** The drag update: the nodes with that id move to `p`; nothing else
      changes. */
  function MoveNode(nodes: seq<WorkflowNode>, id: string, p: Point): (r: seq<WorkflowNode>)
    ensures |r| == |nodes|
    ensures forall k :: 0 <= k < |r| ==>
              r[k].id == nodes[k].id && r[k].kind == nodes[k].kind && r[k].data == nodes[k].data
    ensures forall k :: 0 <= k < |r| && nodes[k].id == id ==> r[k].position == p
    ensures forall k :: 0 <= k < |r| && nodes[k].id != id ==> r[k] == nodes[k]
  {
    UpdateWhere(nodes, id, (n: WorkflowNode) => n.(position := p))
  }

  /** The run's write-back: the nodes with that id get `data.image`, keeping
      their caption and prompt text; nothing else changes. */
  function SetImage(nodes: seq<WorkflowNode>, id: string, image: string): (r: seq<WorkflowNode>)
    ensures |r| == |nodes|
    ensures forall k :: 0 <= k < |r| ==>
              r[k].id == nodes[k].id && r[k].kind == nodes[k].kind && r[k].position == nodes[k].position &&
              r[k].data.caption == nodes[k].data.caption && r[k].data.value == nodes[k].data.value
    ensures forall k :: 0 <= k < |r| && nodes[k].id == id ==> r[k].data.image == Some(image)
    ensures forall k :: 0 <= k < |r| && nodes[k].id != id ==> r[k] == nodes[k]
  {
    UpdateWhere(nodes, id, (n: WorkflowNode) => n.(data := n.data.(image := Some(image))))
  }

  /** With unique ids, writing the image into node `k` changes node `k` only. */
  lemma {:induction false} SetImageTouchesOneNode(nodes: seq<WorkflowNode>, k: nat, image: string)
    requires UniqueIds(nodes) && k < |nodes|
    ensures var r := SetImage(nodes, nodes[k].id, image);
            r[k] == nodes[k].(data := nodes[k].data.(image := Some(image))) &&
            forall j :: 0 <= j < |nodes| && j != k ==> r[j] == nodes[j]
  {
    var r := SetImage(nodes, nodes[k].id, image);
    forall j | 0 <= j < |nodes| && j != k ensures r[j] == nodes[j] {
      assert nodes[j].id != nodes[k].id;
    }
  }

  // ---------------------------------------------------------------------------
  // Dragging.

  /** The drag session recorded at mouse-down. */
  datatype DragSession = DragSession(id: string, startX: int, startY: int, initialX: int, initialY: int)

  /** Where the dragged node goes for a pointer at (clientX, clientY): the
      starting position plus the whole displacement since mouse-down. */
  function DragTarget(d: DragSession, clientX: int, clientY: int): (p: Point)
    ensures p.x - d.initialX == clientX - d.startX && p.y - d.initialY == clientY - d.startY
    ensures clientX == d.startX && clientY == d.startY ==> p == Point(d.initialX, d.initialY)
  {
    Point(d.initialX + (clientX - d.startX), d.initialY + (clientY - d.startY))
  }

  /** The nodes after one mouse-move per pointer position in `path`, in order. */
  function ReplayDrag(nodes: seq<WorkflowNode>, d: DragSession, path: seq<Point>): seq<WorkflowNode>
    decreases |path|
  {
    if path == [] then nodes
    else ReplayDrag(MoveNode(nodes, d.id, DragTarget(d, path[0].x, path[0].y)), d, path[1..])
  }

  /** A later move overrides an earlier one. */
  lemma MoveNodeLastWins(nodes: seq<WorkflowNode>, id: string, p: Point, q: Point)
    ensures MoveNode(MoveNode(nodes, id, p), id, q) == MoveNode(nodes, id, q)
  {
    var a, b := MoveNode(MoveNode(nodes, id, p), id, q), MoveNode(nodes, id, q);
    assert forall k :: 0 <= k < |a| ==> a[k] == b[k];
  }

  /** Only the last pointer position of a drag matters, not the path to it. */
  lemma {:induction false} ReplayDragLast(nodes: seq<WorkflowNode>, d: DragSession, path: seq<Point>)
    requires path != []
    ensures ReplayDrag(nodes, d, path) ==
            MoveNode(nodes, d.id, DragTarget(d, path[|path| - 1].x, path[|path| - 1].y))
    decreases |path|
  {
    var first := MoveNode(nodes, d.id, DragTarget(d, path[0].x, path[0].y));
    if |path| > 1 {
      ReplayDragLast(first, d, path[1..]);
      var last := path[|path| - 1];
      MoveNodeLastWins(nodes, d.id, DragTarget(d, path[0].x, path[0].y), DragTarget(d, last.x, last.y));
    }
  }

  /** Moving nodes to where they already are changes nothing. */
  lemma MoveNodeInPlace(nodes: seq<WorkflowNode>, id: string, p: Point)
    requires forall k :: 0 <= k < |nodes| && nodes[k].id == id ==> nodes[k].position == p
    ensures MoveNode(nodes, id, p) == nodes
  {
    var r := MoveNode(nodes, id, p);
    assert forall k :: 0 <= k < |r| ==> r[k] == nodes[k];
  }

  /** A drag whose pointer ends where it started puts the node back where it
      was, whatever the path in between. */
  lemma {:induction false} DragBackToStart(nodes: seq<WorkflowNode>, d: DragSession, path: seq<Point>)
    requires path != [] && path[|path| - 1] == Point(d.startX, d.startY)
    requires forall k :: 0 <= k < |nodes| && nodes[k].id == d.id ==>
               nodes[k].position == Point(d.initialX, d.initialY)
    ensures ReplayDrag(nodes, d, path) == nodes
  {
    ReplayDragLast(nodes, d, path);
    MoveNodeInPlace(nodes, d.id, Point(d.initialX, d.initialY));
  }

  // ---------------------------------------------------------------------------
  // The fixed pipeline run.

  predicate HasKind(nodes: seq<WorkflowNode>, kind: NodeKind) {
    exists k :: 0 <= k < |nodes| && nodes[k].kind == kind
  }

  /** The pipeline has a node of each kind. */
  predicate PipelineComplete(nodes: seq<WorkflowNode>) {
    HasKind(nodes, Input) && HasKind(nodes, Process) && HasKind(nodes, Output)
  }

  lemma PipelineCompleteIffFound(nodes: seq<WorkflowNode>)
    ensures PipelineComplete(nodes) <==>
              FirstOfKind(nodes, Input).Some? && FirstOfKind(nodes, Process).Some? &&
              FirstOfKind(nodes, Output).Some?
  {
    forall kind: NodeKind ensures HasKind(nodes, kind) <==> FirstOfKind(nodes, kind).Some? {
      if FirstOfKind(nodes, kind).Some? {
        var i := FindIndex(nodes, (n: WorkflowNode) => n.kind == kind).value;
        assert nodes[i].kind == kind;
      }
    }
  }

  /** `inputNode.data.value || ''`: the prompt text, and "" when there is none. */
  function RunPrompt(input: WorkflowNode): (r: string)
    ensures Truthy(input.data.value) ==> r == input.data.value.value
    ensures r == "" <==> !Truthy(input.data.value)
  {
    input.data.value.GetOr("")
  }

  // ---------------------------------------------------------------------------
  // Edge rendering (renderConnections).

  const NodeWidth := 256
  const AnchorDrop := 70
  const CurveReach := 50

  /** A cubic Bezier curve through two end points and two control points. */
  datatype Curve = Curve(from: Point, control1: Point, control2: Point, to: Point)

  /** The curve from the right edge of `source` to the left edge of `target`,
      both at the nodes' rough vertical centre, leaving and entering
      horizontally. */
  function ConnectionCurve(source: WorkflowNode, target: WorkflowNode): (c: Curve)
    ensures c.from.x - source.position.x == NodeWidth && c.to.x == target.position.x
    ensures c.from.y - source.position.y == AnchorDrop && c.to.y - target.position.y == AnchorDrop
    ensures c.control1.y == c.from.y && c.control1.x - c.from.x == CurveReach
    ensures c.control2.y == c.to.y && c.to.x - c.control2.x == CurveReach
  {
    var x1, y1 := source.position.x + NodeWidth, source.position.y + AnchorDrop;
    var x2, y2 := target.position.x, target.position.y + AnchorDrop;
    Curve(Point(x1, y1), Point(x1 + CurveReach, y1), Point(x2 - CurveReach, y2), Point(x2, y2))
  }

  /** Shifting both nodes by the same amount shifts the whole curve by it. */
  lemma ConnectionCurveTranslates(source: WorkflowNode, target: WorkflowNode, dx: int, dy: int)
    ensures var s' := source.(position := Point(source.position.x + dx, source.position.y + dy));
            var t' := target.(position := Point(target.position.x + dx, target.position.y + dy));
            var c, c' := ConnectionCurve(source, target), ConnectionCurve(s', t');
            c'.from == Point(c.from.x + dx, c.from.y + dy) && c'.control1 == Point(c.control1.x + dx, c.control1.y + dy) &&
            c'.control2 == Point(c.control2.x + dx, c.control2.y + dy) && c'.to == Point(c.to.x + dx, c.to.y + dy)
  {
  }

  /** One entry per edge: no curve when either end is missing, otherwise the
      curve between the first nodes with those ids. */
  function Connections(nodes: seq<WorkflowNode>, edges: seq<WorkflowEdge>): (r: seq<Option<Curve>>)
    ensures |r| == |edges|
    ensures forall k :: 0 <= k < |edges| ==>
              (r[k].None? <==> !HasNode(nodes, edges[k].source) || !HasNode(nodes, edges[k].target))
    ensures forall k :: 0 <= k < |edges| && r[k].Some? ==>
              r[k].value == ConnectionCurve(FindNode(nodes, edges[k].source).value, FindNode(nodes, edges[k].target).value)
  {
    seq(|edges|, k requires 0 <= k < |edges| =>
      var source, target := FindNode(nodes, edges[k].source), FindNode(nodes, edges[k].target);
      if source.None? || target.None? then None else Some(ConnectionCurve(source.value, target.value)))
  }

  /** With closed edges every edge is drawn. */
  lemma ClosedEdgesAllDrawn(nodes: seq<WorkflowNode>, edges: seq<WorkflowEdge>)
    requires EdgesClosed(nodes, edges)
    ensures forall k :: 0 <= k < |edges| ==> Connections(nodes, edges)[k].Some?
  {
    assert forall k :: 0 <= k < |edges| ==> edges[k] in edges;
  }

  /** On an empty canvas no edge is drawn, whatever edges remain. */
  lemma EmptyCanvasDrawsNothing(edges: seq<WorkflowEdge>)
    ensures forall k :: 0 <= k < |edges| ==> Connections([], edges)[k].None?
  {
  }
}
