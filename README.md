# Banana image studio: workflow canvas, generation client and prompt forms

A Dafny model of the logic core of a small React image-generation studio built
on the Gemini image model. It covers three parts:

- **The workflow canvas** (`components/WorkflowEditor.tsx`). This is the class
  `WorkflowEditor.Editor`. Its fields are the node list, the edge list, the
  selected node, the `isRunning` flag and the drag session. Its methods are the
  canvas handlers: mouse-down, mouse-move and mouse-up for dragging, select and
  deselect, delete with cascade to edges, data update, clear, and the fixed
  input → process → output run. The list rewrites behind the handlers
  (`filter`, `map`, `find`) and the anchor arithmetic of drawn edges are pure
  functions in `WorkflowGraph`. The class invariant `Valid()` says node ids
  are unique: the seed ids are distinct and no handler adds a node or changes
  an id.
- **The generation client** (`services/geminiService.ts`), in `GeminiService`.
  The SDK call is replaced by its outcome, passed in as a value: a thrown
  error with an optional message, or a response tree. What remains is
  `processResponse`, the `split(',')[1] || s` header strip, the
  `text?.trim() || original` fallback of the prompt optimizer and the
  try/catch of both generate calls.
- **The two prompt forms** (`components/TextToImage.tsx`,
  `components/ImageToImage.tsx`). Each is a class `Form` whose generate and
  optimize handlers are one atomic step taking the remote outcome as a
  parameter. Each handler returns what it sent, or `None` when its guard let
  nothing through.

Supporting modules:

- `Base`: `Option`, JavaScript truthiness of an optional string, and the
  helper `OrElse` for `s || fallback`.
- `Strings`: ECMAScript `trim` and one-character `split`.
- `Types`: the records of `types.ts`.

Main results:

- Deleting a node keeps every edge closed.
- A drag depends only on its last pointer position, and a drag that returns
  to its start restores the graph.
- A run writes the image into the first output node only. This holds because
  the editor keeps node ids unique.
- `processResponse` always yields exactly one of image and error, and ignores
  every part after the first inline-data part.
- Stripping the header from a data URL the client built gives back the
  payload.
- A chip click appends exactly one comma-separated segment.
- The optimizer never turns a non-blank prompt into a blank one.

## Model

| member | source | states |
|---|---|---|
| Strings.TrimStart | services/geminiService.ts:39 | the result is a suffix of the input, what was cut is all whitespace, and the result does not start with whitespace |
| Strings.TrimEnd | services/geminiService.ts:39 | the result is a prefix of the input, what was cut is all whitespace, and the result does not end with whitespace |
| Strings.Trim | components/TextToImage.tsx:15 | the trimmed text neither starts nor ends with whitespace, and is empty exactly when the input is all whitespace (the `!prompt.trim()` guard) |
| Strings.TrimIsSlice | services/geminiService.ts:39 | `trim` removes a run of whitespace at each end and keeps the rest as one contiguous slice |
| Strings.TrimIdempotent | services/geminiService.ts:39 | trimming a trimmed string changes nothing |
| Strings.IndexOf | services/geminiService.ts:68 | None exactly when the character is absent, otherwise its first position |
| Strings.Split | services/geminiService.ts:68 | at least one segment, no segment holds the separator, and joining the segments with the separator rebuilds the input |
| Strings.SplitUnique | services/geminiService.ts:68 | splitting a join of separator-free parts returns exactly those parts |
| Strings.SplitFirstSegment | services/geminiService.ts:68 | the first segment is the longest separator-free prefix |
| Strings.SplitAtFirst | services/geminiService.ts:68 | at the first separator, split gives the part before it followed by the split of the rest |
| GeminiService.FirstInlineIndex | services/geminiService.ts:107-111 | the loop stops at the first part with `inlineData`, and finds none exactly when no part has it |
| GeminiService.ProcessResponse | services/geminiService.ts:95-119 | no candidates, then no content or parts, then the first inline part as a PNG data URL, then the model's text, then the fixed error; image and error are never both set, and there is an image exactly when some part has inline data |
| GeminiService.NoImageResult | services/geminiService.ts:113-118 | an error and no image: "生成失败: " + the first part's text when it is truthy, otherwise the fixed message |
| GeminiService.OnlyFirstCandidate | services/geminiService.ts:101 | candidates after the first do not change the result |
| GeminiService.FirstInlineIndexPrefix | services/geminiService.ts:107-111 | appending parts after an inline-data part does not move the first one |
| GeminiService.LaterPartsIgnored | services/geminiService.ts:107-111 | once a part carries an image, later parts do not change the result |
| GeminiService.StripHeader | services/geminiService.ts:68 | with no comma the input is kept; otherwise the non-empty segment after the first comma up to the next one, or the whole input when that segment is empty |
| GeminiService.DataUrlRoundTrip | services/geminiService.ts:68 | stripping `data:image/png;base64,` + payload gives the payload back, for a non-empty comma-free payload |
| GeminiService.ResponseImageRoundTrip | services/geminiService.ts:68-109 | an image decoded by processResponse, stripped again, is the model's own inline data |
| GeminiService.EditRequestFor | services/geminiService.ts:65-85 | the request carries the prompt and the MIME type; a comma-free input is sent as is; otherwise the sent data is the whole input or a shorter, non-empty, comma-free segment of it |
| GeminiService.OptimizePrompt | services/geminiService.ts:19-44 | a thrown call or missing text keeps the original; a non-blank reply becomes its trimmed text; a blank reply keeps the original; a non-blank prompt never becomes blank |
| GeminiService.OptimizedIsTrimmed | services/geminiService.ts:39 | the optimizer returns the original prompt or a non-empty text already trimmed |
| GeminiService.GenerateImageFromText | services/geminiService.ts:46-63 | a thrown call gives only its message as error, or "图片生成失败。" when the message is missing or empty; a response goes through processResponse; exactly one of image and error is set |
| GeminiService.GenerateImageFromImage | services/geminiService.ts:65-92 | as above with the default "图片重绘失败。" |
| WorkflowGraph.Filter | components/WorkflowEditor.tsx:256-257 | the result holds exactly the elements that pass the test, and is no longer than the input |
| WorkflowGraph.FilterConcat | components/WorkflowEditor.tsx:256-257 | filtering goes left to right, so the kept elements keep their relative order |
| WorkflowGraph.FilterKeepsAll | components/WorkflowEditor.tsx:256-257 | a filter that rejects nothing returns its input |
| WorkflowGraph.FindIndex | components/WorkflowEditor.tsx:161-163 | None exactly when no element matches, otherwise the first match |
| WorkflowGraph.FirstOfKind | components/WorkflowEditor.tsx:161-163 | None exactly when no node has the kind, otherwise a node of the list with that kind (the first one, by FirstOfKindAt) |
| WorkflowGraph.FindNode | components/WorkflowEditor.tsx:105 | None exactly when no node has the id, otherwise a node of the list with that id |
| WorkflowGraph.FirstOfKindAt | components/WorkflowEditor.tsx:161-163 | the first node of a kind is the one found |
| WorkflowGraph.FindNodeAt | components/WorkflowEditor.tsx:105 | the first node with an id is the one found |
| WorkflowGraph.RemoveNode | components/WorkflowEditor.tsx:256 | exactly the nodes with other ids remain, and none with the deleted id |
| WorkflowGraph.RemoveIncidentEdges | components/WorkflowEditor.tsx:257 | exactly the edges touching neither end at the id remain |
| WorkflowGraph.RemoveNodeKeepsUniqueIds | components/WorkflowEditor.tsx:256 | deleting a node keeps node ids unique |
| WorkflowGraph.SameIdsKeepUniqueIds | components/WorkflowEditor.tsx:123-134 | a `map` that keeps every node's id in place keeps ids unique |
| WorkflowGraph.DeletePreservesClosedEdges | components/WorkflowEditor.tsx:255-258 | if every edge named existing nodes before a delete, it still does after it |
| WorkflowGraph.DeleteAbsentIsNoOp | components/WorkflowEditor.tsx:255-258 | deleting an id that no node has changes neither list |
| WorkflowGraph.ReplaceData | components/WorkflowEditor.tsx:259-261 | length, order, ids, kinds and positions stay; the nodes with the id get the new data; all other nodes are unchanged |
| WorkflowGraph.MoveNode | components/WorkflowEditor.tsx:123-134 | the nodes with the id get the new position; ids, kinds, data and every other node stay |
| WorkflowGraph.SetImage | components/WorkflowEditor.tsx:177-182 | the nodes with the id get `data.image` and keep caption and prompt text; everything else stays |
| WorkflowGraph.SetImageTouchesOneNode | components/WorkflowEditor.tsx:177-182 | with unique ids, exactly one node changes |
| WorkflowGraph.DragTarget | components/WorkflowEditor.tsx:120-129 | the node is displaced from its initial position by exactly the pointer's displacement from the drag start, so the pointer back at the start gives the initial position |
| WorkflowGraph.MoveNodeLastWins | components/WorkflowEditor.tsx:118-135 | a second move overrides the first |
| WorkflowGraph.ReplayDragLast | components/WorkflowEditor.tsx:118-135 | after any sequence of moves the graph depends only on the last pointer position |
| WorkflowGraph.MoveNodeInPlace | components/WorkflowEditor.tsx:123-134 | moving a node to where it is changes nothing |
| WorkflowGraph.DragBackToStart | components/WorkflowEditor.tsx:118-135 | a drag whose pointer ends at its start restores the graph, whatever the path |
| WorkflowGraph.PipelineCompleteIffFound | components/WorkflowEditor.tsx:161-165 | the three lookups all succeed exactly when the list has a node of each kind |
| WorkflowGraph.RunPrompt | components/WorkflowEditor.tsx:172 | the input node's prompt when it is a non-empty string, and "" exactly when it is missing or empty |
| WorkflowGraph.ConnectionCurve | components/WorkflowEditor.tsx:199-206 | the curve leaves the source 256 to the right and 70 down, enters the target 70 down, and both control points lie 50 away horizontally |
| WorkflowGraph.ConnectionCurveTranslates | components/WorkflowEditor.tsx:199-206 | moving both end nodes by the same offset moves the whole curve by it |
| WorkflowGraph.Connections | components/WorkflowEditor.tsx:193-197 | one entry per edge; no curve exactly when an end is missing, otherwise the curve between the first nodes with those ids |
| WorkflowGraph.ClosedEdgesAllDrawn | components/WorkflowEditor.tsx:193-197 | with closed edges every edge is drawn |
| WorkflowGraph.EmptyCanvasDrawsNothing | components/WorkflowEditor.tsx:195-197 | on an empty node list no edge is drawn, whatever edges remain after a clear |
| WorkflowEditor.SeedGraphWellFormed | components/WorkflowEditor.tsx:85-94 | the seed graph has unique ids, closed edges and a node of each kind |
| WorkflowEditor.Editor.constructor | components/WorkflowEditor.tsx:85-100 | the session starts with the seed nodes and edges, no selection, not running and no drag, and with unique node ids |
| WorkflowEditor.Editor.HandleMouseDown | components/WorkflowEditor.tsx:103-116 | on an existing node: records pointer start and node position and selects the node; on an unknown id: nothing changes |
| WorkflowEditor.Editor.HandleMouseMove | components/WorkflowEditor.tsx:118-136 | during a drag the dragged node goes to its initial position plus the total displacement; with no drag nothing changes |
| WorkflowEditor.Editor.HandleMouseUp | components/WorkflowEditor.tsx:138-140 | the drag session ends and nothing else changes |
| WorkflowEditor.Editor.OnSelect | components/WorkflowEditor.tsx:254 | the clicked node becomes selected |
| WorkflowEditor.Editor.OnCanvasClick | components/WorkflowEditor.tsx:236 | the selection is cleared |
| WorkflowEditor.Editor.OnDelete | components/WorkflowEditor.tsx:255-258 | nodes and edges are filtered as above, closed edges stay closed, and the selection is left alone |
| WorkflowEditor.Editor.OnUpdate | components/WorkflowEditor.tsx:259-261 | the node list becomes the data update of the old one |
| WorkflowEditor.Editor.Clear | components/WorkflowEditor.tsx:225 | the node list is emptied and the edges stay |
| WorkflowEditor.Editor.RunWorkflow | components/WorkflowEditor.tsx:153-190 | no call is made exactly when a kind is missing, and then the nodes stay; otherwise the first input's value (or "") is sent and an image result is written into the nodes with the first output's id, which under the unique-id invariant means that node's `data.image` alone changes; an error result leaves the nodes alone; `isRunning` ends false; every handler keeps ids unique |
| WorkflowEditor.Editor.RenderConnections | components/WorkflowEditor.tsx:193-197 | one entry per edge, all drawn when the edges are closed, none when the canvas is empty |
| WorkflowEditor.RunWritesOnlyFirstOutput | components/WorkflowEditor.tsx:175-183 | with unique ids, the write-back changes the first output node's image and no other node |
| WorkflowEditor.ApplePipeline | components/WorkflowEditor.tsx:161-172 | after typing a prompt into the seed graph, the run finds input, process and output at the seed positions |
| WorkflowEditor.ImageReplyDecodes | services/geminiService.ts:107-111 | a one-part inline reply decodes to the data URL of its payload |
| WorkflowEditor.SeedRunScenario | components/WorkflowEditor.tsx:153-190 | a run of the seed graph with the prompt "a red apple" sends that prompt and shows the reply's image in the output node |
| WorkflowEditor.SeedInputInPlace | components/WorkflowEditor.tsx:123-134 | moving the seed input node onto its own position changes nothing |
| WorkflowEditor.SeedDragReturns | components/WorkflowEditor.tsx:103-136 | three moves of the seed input node that end at the pointer start restore the seed graph |
| WorkflowEditor.DragRoundTripScenario | components/WorkflowEditor.tsx:103-140 | dragging away and back, letting go and moving again leaves the seed nodes as they were |
| TextToImage.AppendStyle | components/TextToImage.tsx:88 | an empty prompt becomes the style; any other prompt, blank or not, gets "，" and the style |
| TextToImage.JoinSnoc | components/TextToImage.tsx:88 | joining one more part appends the separator and that part |
| TextToImage.AppendStyleSegments | components/TextToImage.tsx:88 | a chip adds exactly one segment, the style, at the end of the comma-separated prompt |
| TextToImage.StyleChipsHaveNoSeparator | components/TextToImage.tsx:85 | no offered chip contains the full-width comma |
| TextToImage.Form.constructor | components/TextToImage.tsx:8-12 | the form starts empty, idle, with no result and no error |
| TextToImage.Form.OnPromptChange | components/TextToImage.tsx:80 | the prompt becomes the typed text |
| TextToImage.Form.OnStyleChip | components/TextToImage.tsx:88 | the prompt becomes the chip append of the old prompt |
| TextToImage.Form.HandleGenerate | components/TextToImage.tsx:14-32 | a blank prompt changes nothing and sends nothing; otherwise the prompt is sent, an error result sets the error and keeps the old image, an image result clears the error and records image and prompt, and loading ends |
| TextToImage.Form.HandleOptimize | components/TextToImage.tsx:34-40 | a blank prompt changes nothing; otherwise the prompt becomes the optimizer's answer, which is not blank, and optimizing ends |
| ImageToImage.Form.constructor | components/ImageToImage.tsx:8-13 | the form starts with no prompt, no image, idle, no result and no error |
| ImageToImage.Form.OnPromptChange | components/ImageToImage.tsx:124 | the prompt becomes the typed text |
| ImageToImage.Form.OnImageLoaded | components/ImageToImage.tsx:20-22 | the upload's data URL becomes the source image |
| ImageToImage.Form.HandleGenerate | components/ImageToImage.tsx:35-53 | without a non-blank prompt and a source image nothing changes; otherwise prompt, PNG type and stripped payload are sent, and the error and result rules are those of text-to-image |
| ImageToImage.Form.HandleOptimize | components/ImageToImage.tsx:27-33 | a blank prompt changes nothing; otherwise the prompt becomes the optimizer's answer and the source image stays |
| ImageToImage.UploadSentAsPayload | components/ImageToImage.tsx:40 | an upload read as a PNG data URL reaches the model as its bare base64 payload |

## Left out

- Rendering: JSX, CSS classes, icons, `NodeView` markup and the SVG path
  string. The curve is modelled through its points.
- The Google GenAI SDK, the API key and the network. Each call's outcome is a
  parameter: `CallOutcome` for the image model, `TextReply` for the text
  model. The prompt text the optimizer builds around the user input is not
  modelled.
- async/await. Every handler is one atomic step. Edits made while a call is
  pending, and the `prev =>` functional updates that would see them, are not
  modelled. Overlapping runs are excluded only by the button being disabled
  while loading (`components/ui/Components.tsx`), which is not part of this
  model.
- The `disabled={isOptimizing || !prompt}` and similar button guards. Only
  the guards inside the handlers are modelled.
- `Date.now()` ids and timestamps of `GeneratedImage`, `alert`,
  `console.error`, `FileReader` reading (the loaded string is a parameter of
  `OnImageLoaded`), downloads, and `stopPropagation` and event routing.
- Floating-point coordinates: positions and pointer coordinates are integers.
- `inlineData.mimeType` of a response part. The client never reads it.
- Exceptions thrown inside `processResponse` itself, for example a `null`
  entry in the candidate or part list. The response tree cannot hold one.
- `optimizedPrompt` in `GenerationResult`: the client never sets it.
- Adding nodes and edges, and removing a single edge: the code has no such
  handlers. Deleting a node does not clear the selection, even when that node
  was selected; the model follows the code here.
- Strings.IsBlank is stated as "every character is whitespace". By the
  contract of `Strings.Trim` this is equivalent to `trim()` returning "", and
  it is cheaper to reason about.
- WorkflowEditor.Editor.RunWorkflow: the `catch` branch is not modelled.
  `generateImageFromText` catches every thrown Error object itself. A thrown
  `null` or `undefined` would make its own `error.message` read throw, and
  that rejection would reach this `catch`. The end state would be the same
  as a run without an image: nodes untouched and `isRunning` false.
