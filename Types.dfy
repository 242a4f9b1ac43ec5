/** The records of types.ts: a generated image and the nodes and edges of the
    workflow canvas. */
module Types {

  import opened Base

  /** A generated image shown by a prompt form: the `data:` URL and the prompt
      it was made from. (The component also stamps an id and a time, both taken
      from the clock.) */
  datatype GeneratedImage = GeneratedImage(data: string, prompt: string)

  /** The three node roles of the fixed pipeline. */
  datatype NodeKind = Input | Process | Output

  /** Canvas coordinates, in whole pixels. */
  datatype Point = Point(x: int, y: int)

  /** A node's payload: its caption (`label` in the source), the prompt text (input nodes) and the
      generated image (output nodes). */
  datatype NodeData = NodeData(caption: string, value: Option<string>, image: Option<string>)

  datatype WorkflowNode = WorkflowNode(id: string, kind: NodeKind, position: Point, data: NodeData)

  /** A directed connection from the node named `source` to the node named `target`. */
  datatype WorkflowEdge = WorkflowEdge(id: string, source: string, target: string)
}
