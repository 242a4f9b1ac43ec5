/** The state and event handlers of the workflow canvas
    (components/WorkflowEditor.tsx). Each handler is one atomic step; the
    remote generation call of a run is the `reply` parameter. */
module WorkflowEditor {

  import opened Base
  import opened Types
  import opened WorkflowGraph
  import GeminiService

  /** The seed graph every session starts with: input -> process -> output. */
  const SeedNodes: seq<WorkflowNode> := [
    WorkflowNode("1", Input, Point(50, 100), NodeData("提示词", Some("一只可爱的机器香蕉正在吃像素苹果"), None)),
    WorkflowNode("2", Process, Point(350, 100), NodeData("Gemini 生成器", None, None)),
    WorkflowNode("3", Output, Point(650, 100), NodeData("结果", None, None))
  ]

  const SeedEdges: seq<WorkflowEdge> := [
    WorkflowEdge("e1-2", "1", "2"),
    WorkflowEdge("e2-3", "2", "3")
  ]

  /** The seed graph has unique ids, closed edges and a complete pipeline. */
  lemma SeedGraphWellFormed()
    ensures UniqueIds(SeedNodes) && EdgesClosed(SeedNodes, SeedEdges) && PipelineComplete(SeedNodes)
  {
    assert SeedNodes[0].id == "1" && SeedNodes[1].id == "2" && SeedNodes[2].id == "3";
    assert SeedNodes[0].kind == Input && SeedNodes[1].kind == Process && SeedNodes[2].kind == Output;
    assert SeedNodes[0] in SeedNodes && SeedNodes[1] in SeedNodes && SeedNodes[2] in SeedNodes;
  }

  class Editor {
    var nodes: seq<WorkflowNode>
    var edges: seq<WorkflowEdge>
    var selectedNode: Option<string>
    var isRunning: bool
    /** `dragItem.current`: the drag session between mouse-down and mouse-up. */
    var dragItem: Option<DragSession>

    /** The node ids stay unique: the seed ids are distinct and no handler adds
        a node or changes an id. */
    ghost predicate Valid()
      reads this
    {
      UniqueIds(nodes)
    }

    constructor ()
      ensures nodes == SeedNodes && edges == SeedEdges
      ensures selectedNode == None && !isRunning && dragItem == None
      ensures Valid()
    {
      SeedGraphWellFormed();
      nodes, edges := SeedNodes, SeedEdges;
      selectedNode, isRunning, dragItem := None, false, None;
    }

    /** Mouse-down on the node named `id`: for a node that exists, starts a drag
        session from the pointer position and the node's current position
        (replacing any session in progress) and selects the node; otherwise
        nothing happens. */
    method HandleMouseDown(id: string, clientX: int, clientY: int)
      requires Valid()
      modifies this
      ensures Valid()
      ensures FindNode(old(nodes), id).None? ==> unchanged(this)
      ensures FindNode(old(nodes), id).Some? ==>
                var n := FindNode(old(nodes), id).value;
                dragItem == Some(DragSession(id, clientX, clientY, n.position.x, n.position.y)) &&
                selectedNode == Some(id)
      ensures nodes == old(nodes) && edges == old(edges) && isRunning == old(isRunning)
    {
      var node := FindNode(nodes, id);
      if node.Some? {
        dragItem := Some(DragSession(id, clientX, clientY, node.value.position.x, node.value.position.y));
        selectedNode := Some(id);
      }
    }

    /** Mouse-move anywhere: while a drag is in progress, puts the dragged node
        at its starting position plus the pointer's total displacement;
        otherwise nothing happens. */
    method HandleMouseMove(clientX: int, clientY: int)
      requires Valid()
      modifies this
      ensures Valid()
      ensures old(dragItem).None? ==> unchanged(this)
      ensures old(dragItem).Some? ==>
                var d := old(dragItem).value;
                nodes == MoveNode(old(nodes), d.id, DragTarget(d, clientX, clientY))
      ensures edges == old(edges) && selectedNode == old(selectedNode)
      ensures isRunning == old(isRunning) && dragItem == old(dragItem)
    {
      if dragItem.Some? {
        var d := dragItem.value;
        nodes := MoveNode(nodes, d.id, DragTarget(d, clientX, clientY));
      }
    }

    /** Mouse-up anywhere ends the drag session. */
    method HandleMouseUp()
      requires Valid()
      modifies this
      ensures Valid()
      ensures dragItem == None
      ensures nodes == old(nodes) && edges == old(edges)
      ensures selectedNode == old(selectedNode) && isRunning == old(isRunning)
    {
      dragItem := None;
    }

    /** Clicking a node selects it (the click does not reach the canvas). */
    method OnSelect(id: string)
      requires Valid()
      modifies this
      ensures Valid()
      ensures selectedNode == Some(id)
      ensures nodes == old(nodes) && edges == old(edges)
      ensures isRunning == old(isRunning) && dragItem == old(dragItem)
    {
      selectedNode := Some(id);
    }

    /** Clicking the empty canvas clears the selection. */
    method OnCanvasClick()
      requires Valid()
      modifies this
      ensures Valid()
      ensures selectedNode == None
      ensures nodes == old(nodes) && edges == old(edges)
      ensures isRunning == old(isRunning) && dragItem == old(dragItem)
    {
      selectedNode := None;
    }

    /** The delete button of node `id`: removes the nodes with that id and the
        edges touching it. The selection is left as it was, even when it names
        the deleted node. */
    method OnDelete(id: string)
      requires Valid()
      modifies this
      ensures Valid()
      ensures nodes == RemoveNode(old(nodes), id)
      ensures edges == RemoveIncidentEdges(old(edges), id)
      ensures EdgesClosed(old(nodes), old(edges)) ==> EdgesClosed(nodes, edges)
      ensures selectedNode == old(selectedNode) && isRunning == old(isRunning) && dragItem == old(dragItem)
    {
      if EdgesClosed(nodes, edges) {
        DeletePreservesClosedEdges(nodes, edges, id);
      }
      RemoveNodeKeepsUniqueIds(nodes, id);
      nodes := RemoveNode(nodes, id);
      edges := RemoveIncidentEdges(edges, id);
    }

    /** Editing a node's payload replaces the data of the nodes with that id. */
    method OnUpdate(id: string, data: NodeData)
      requires Valid()
      modifies this
      ensures Valid()
      ensures nodes == ReplaceData(old(nodes), id, data)
      ensures edges == old(edges) && selectedNode == old(selectedNode)
      ensures isRunning == old(isRunning) && dragItem == old(dragItem)
    {
      nodes := ReplaceData(nodes, id, data);
    }

    /** The clear button empties the node list and keeps the edges. */
    method Clear()
      requires Valid()
      modifies this
      ensures Valid()
      ensures nodes == [] && edges == old(edges)
      ensures selectedNode == old(selectedNode) && isRunning == old(isRunning) && dragItem == old(dragItem)
    {
      nodes := [];
    }

    /** The run button. Without a node of each kind nothing is sent and the
        nodes stay as they are. Otherwise the first input node's prompt is sent
        and, when the result carries an image, it is written into the first
        output node's `data.image`; an error result is dropped. The run always
        ends with `isRunning` false. `sent` is the prompt sent to the image
        model, None when no call was made. */
    method RunWorkflow(reply: GeminiService.CallOutcome) returns (sent: Option<string>)
      requires Valid()
      modifies this
      ensures Valid()
      ensures !isRunning
      ensures sent.None? <==> !PipelineComplete(old(nodes))
      ensures sent.None? ==> nodes == old(nodes)
      ensures sent.Some? ==>
                var input, output := FirstOfKind(old(nodes), Input).value, FirstOfKind(old(nodes), Output).value;
                var result := GeminiService.GenerateImageFromText(reply);
                sent.value == RunPrompt(input) &&
                nodes == (if Truthy(result.image) then SetImage(old(nodes), output.id, result.image.value)
                          else old(nodes)) &&
                (Truthy(result.image) ==> OnlyFirstOutputGains(old(nodes), nodes, result.image.value))
      ensures edges == old(edges) && selectedNode == old(selectedNode) && dragItem == old(dragItem)
    {
      isRunning := true;
      var before := nodes;
      PipelineCompleteIffFound(before);
      var inputNode := FirstOfKind(before, Input);
      var processNode := FirstOfKind(before, Process);
      var outputNode := FirstOfKind(before, Output);
      if inputNode.None? || processNode.None? || outputNode.None? {
        sent := None;
      } else {
        sent := Some(RunPrompt(inputNode.value));
        var result := GeminiService.GenerateImageFromText(reply);
        if Truthy(result.image) {
          RunWritesOnlyFirstOutput(before, result.image.value);
          var written := SetImage(before, outputNode.value.id, result.image.value);
          SameIdsKeepUniqueIds(before, written);
          nodes := written;
        }
      }
      isRunning := false;
    }

    /** The curves drawn for the current edges. */
    function RenderConnections(): (r: seq<Option<Curve>>)
      reads this
      ensures |r| == |edges|
      ensures EdgesClosed(nodes, edges) ==> forall k :: 0 <= k < |r| ==> r[k].Some?
      ensures nodes == [] ==> forall k :: 0 <= k < |r| ==> r[k].None?
    {
      assert EdgesClosed(nodes, edges) ==> forall k :: 0 <= k < |edges| ==> Connections(nodes, edges)[k].Some? by {
        if EdgesClosed(nodes, edges) { ClosedEdgesAllDrawn(nodes, edges); }
      }
      Connections(nodes, edges)
    }
  }

  /** `after` is `before` with `image` written into the first output node and
      no other node changed. */
  ghost predicate OnlyFirstOutputGains(before: seq<WorkflowNode>, after: seq<WorkflowNode>, image: string) {
    var k := FindIndex(before, (n: WorkflowNode) => n.kind == Output);
    k.Some? && |after| == |before| && before[k.value].kind == Output &&
    (forall j :: 0 <= j < k.value ==> before[j].kind != Output) &&
    after[k.value] == before[k.value].(data := before[k.value].data.(image := Some(image))) &&
    forall j :: 0 <= j < |before| && j != k.value ==> after[j] == before[j]
  }

  /** With unique ids, a run that yields an image changes the first output
      node's `data.image` and nothing else. */
  lemma {:induction false} RunWritesOnlyFirstOutput(nodes: seq<WorkflowNode>, image: string)
    requires UniqueIds(nodes) && PipelineComplete(nodes)
    ensures OnlyFirstOutputGains(nodes, SetImage(nodes, FirstOfKind(nodes, Output).value.id, image), image)
  {
    PipelineCompleteIffFound(nodes);
    var k := FindIndex(nodes, (n: WorkflowNode) => n.kind == Output).value;
    SetImageTouchesOneNode(nodes, k, image);
  }

  /** The prompt of the run scenario, typed into the seed graph's input node. */
  const ApplePrompt := NodeData("提示词", Some("a red apple"), None)

  /** A reply whose single part carries the payload "IMG1". */
  const ImageReply := GeminiService.Responded(GeminiService.WithParts(
    [GeminiService.Part(None, Some(GeminiService.InlineData(Some("IMG1"))))]))

  /** After the prompt edit, the run finds the pipeline at the seed positions. */
  lemma ApplePipeline()
    ensures var nodes := ReplaceData(SeedNodes, "1", ApplePrompt);
            |nodes| == 3 && PipelineComplete(nodes) && nodes[2].id == "3" &&
            FirstOfKind(nodes, Input) == Some(nodes[0]) && RunPrompt(nodes[0]) == "a red apple" &&
            FirstOfKind(nodes, Output) == Some(nodes[2])
  {
    var nodes := ReplaceData(SeedNodes, "1", ApplePrompt);
    assert nodes[0].kind == Input && nodes[1].kind == Process && nodes[2].kind == Output;
    FirstOfKindAt(nodes, 0, Input);
    FirstOfKindAt(nodes, 2, Output);
  }

  /** The reply decodes to the PNG data URL of its payload. */
  lemma ImageReplyDecodes()
    ensures GeminiService.GenerateImageFromText(ImageReply).image == Some(GeminiService.DataUrl("IMG1"))
  {
    var parts := GeminiService.PartsOf(ImageReply.response);
    assert GeminiService.IsFirstInline(parts, 0);
  }

  /** The seed graph with the prompt "a red apple" and a model that answers
      with the payload "IMG1" ends with that image in the output node. */
  method SeedRunScenario() returns (sent: Option<string>, image: Option<string>)
    ensures sent == Some("a red apple")
    ensures image == Some(GeminiService.DataUrl("IMG1"))
  {
    var editor := new Editor();
    editor.OnUpdate("1", ApplePrompt);
    ApplePipeline();
    ImageReplyDecodes();
    ghost var before := editor.nodes;
    sent := editor.RunWorkflow(ImageReply);
    assert editor.nodes == SetImage(before, "3", GeminiService.DataUrl("IMG1"));
    image := editor.nodes[2].data.image;
  }

  /** Moving the seed input node to where it stands changes nothing. */
  lemma SeedInputInPlace()
    ensures MoveNode(SeedNodes, "1", Point(50, 100)) == SeedNodes
  {
    assert SeedNodes[0].position == Point(50, 100);
    assert SeedNodes[1].id != "1" && SeedNodes[2].id != "1";
    MoveNodeInPlace(SeedNodes, "1", Point(50, 100));
  }

  /** Three moves of the input node that end where the drag started. */
  lemma SeedDragReturns(d: DragSession)
    requires d == DragSession("1", 500, 300, 50, 100)
    ensures FindNode(SeedNodes, "1") == Some(SeedNodes[0])
    ensures SeedNodes[0].position == Point(50, 100)
    ensures MoveNode(MoveNode(MoveNode(SeedNodes, "1", DragTarget(d, 505, 300)), "1", DragTarget(d, 510, 300)),
                     "1", DragTarget(d, 500, 300)) == SeedNodes
  {
    FindNodeAt(SeedNodes, 0, "1");
    var p1, p2, p3 := DragTarget(d, 505, 300), DragTarget(d, 510, 300), DragTarget(d, 500, 300);
    MoveNodeLastWins(SeedNodes, "1", p1, p2);
    MoveNodeLastWins(SeedNodes, "1", p2, p3);
    assert p3 == Point(50, 100);
    SeedInputInPlace();
  }

  /** Dragging the input node by (5, 0), (5, 0) and (-10, 0) and letting go
      leaves the graph as it was. */
  method DragRoundTripScenario() returns (nodes: seq<WorkflowNode>)
    ensures nodes == SeedNodes
  {
    var editor := new Editor();
    var d := DragSession("1", 500, 300, 50, 100);
    SeedDragReturns(d);
    editor.HandleMouseDown("1", 500, 300);
    editor.HandleMouseMove(505, 300);
    editor.HandleMouseMove(510, 300);
    editor.HandleMouseMove(500, 300);
    editor.HandleMouseUp();
    editor.HandleMouseMove(900, 900);
    nodes := editor.nodes;
  }
}
