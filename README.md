# Graph editor core, modelled in Dafny

The program is an interactive graph editor written in C++ against the BGI
graphics library. The user places nodes on a canvas and joins them with arcs,
which may be weighted and directed. Undo and redo work over whole-graph
snapshots, and BFS and DFS visits are animated from a clicked node. Once drawing
and event polling are removed, what is left is sequential code over a handful of
global vectors. This project models that code and proves properties of it.

- **Digits** (`digits.dfy`): `intToStr`, which writes node labels, and the
  decimal value `stringstream >> int` reads back from the weight prompt.
- **WeightPrompt** (`weight_prompt.dfy`): how `popupGetWeight` turns keys
  into text, when it finishes, and which weight it returns. Keys are given
  as a sequence of key codes.
- **GraphModel** (`graph_model.dfy`):
  - the node list, the adjacency rows and the node count;
  - the structural edits as functions of the graph before the edit: add
    node, add edge, add self-loop, delete edge, delete node with its
    renumbering, and clear;
  - the well-formedness invariant that every edit keeps.
- **History** (`history.dfy`): the undo and redo snapshot stacks, with
  `saveSnapshot`, `doUndo` and `doRedo` as functions.
- **HitTest** (`hit_test.dfy`):
  - `findNodeAt`;
  - `distPointToSegment` in exact real arithmetic;
  - `findEdgeNear`, whose scan order is specified by recursive functions; the
    two loops are methods proved equal to them.
- **Traversal** (`traversal.dfy`): the visit orders of `BFS_visual` and
  `DFS_visual` as functions of the adjacency rows. It proves that each emits
  every node reachable from the start exactly once, and that DFS follows
  recursive preorder.
- **Interaction** (`interaction.dfy`): the state machine in `main` as
  functions of the state before an event: toolbar buttons, keys, and a canvas
  click in each mode. It defines the invariant every event keeps.
- **Editor** (`editor.dfy`):
  - the globals as one `class Editor` whose methods update the fields in
    place: the snapshot routines, `resetVisited`, the BFS and DFS drivers,
    the Delete Node loop nest, and each branch of the click handler;
  - `PressButton` and `Key` follow the source except for the correction
    listed under Findings: after Undo or Redo they drop a selection that no
    longer names a node of the restored graph;
  - each method is proved to leave the state that the matching Interaction
    function describes, and so to keep its invariant.

Notes on the code's behaviour:
- In Add Edge and Self Loop, `saveSnapshot` runs before the weight prompt.
  A cancelled prompt therefore still pushes a snapshot and clears the redo
  stack (main.cpp:494-498, 513-517).
- The double-click test compares only against the node that started the last
  selection (main.cpp:485). A quick click on that node after the edge was
  already added resets the click bookkeeping instead of starting a new
  selection.

## Model

| member | source | states |
|---|---|---|
| Digits.IntToStr | main.cpp:73 | a label is non-empty, starts with '-' exactly for a negative value, and is all digits otherwise |
| Digits.NatToStr | main.cpp:73 | the decimal text of a natural is non-empty, all digits, and starts with '0' only for 0 |
| Digits.DigitsValue | main.cpp:406 | the value a string of k digits reads as is below 10^k |
| Digits.IntToStrRoundTrip | main.cpp:73 | the label written for a non-negative value is all digits and reads back as that value |
| Digits.NatToStrLength | main.cpp:73 | a number below 10^k is written with at most k digits |
| Digits.NatToStrRoundTrip | main.cpp:73 | reading back the decimal text of n gives n |
| WeightPrompt.Press | main.cpp:396-400 | one key keeps the entry well formed; Esc and only Esc cancels; the prompt finishes exactly on Esc or on Enter with non-empty text; the text grows by one exactly for a digit key when it holds fewer than 6 digits |
| WeightPrompt.Result | main.cpp:405-407 | -1 exactly when cancelled; otherwise a value in 1..999999, equal to the typed number when that is positive and 1 when the digits read as 0 |
| WeightPrompt.Feed | main.cpp:395-402 | a finished prompt ignores further keys; without an Esc key the cancel flag is unchanged |
| WeightPrompt.FeedWellFormed | main.cpp:395-402 | every state the key loop reaches from a blank box has only digits, at most 6 of them, and is never finished by Enter on an empty box |
| WeightPrompt.AnswerRange | main.cpp:395-407 | whatever keys are typed, a finished prompt answers -1 or a weight in 1..999999 |
| WeightPrompt.EscapeCancels | main.cpp:398 | Esc ends the prompt with -1 whatever was typed before it |
| WeightPrompt.TypedWeightIsReturned | main.cpp:395-407 | typing the numeral of any w in 1..999999 followed by Enter returns w |
| WeightPrompt.ReadWeight | main.cpp:395-407 | the key loop stops exactly when the keystroke model says the prompt is done and returns that model's weight |
| GraphModel.HasSelfLoopCount | main.cpp:510-511 | the scan for an existing self-loop finds one exactly when the row holds at least one arc back to its node |
| GraphModel.Wf | main.cpp:44-46 | the graph invariant: as many nodes as rows as the count, every target names a node, at most one self-loop per row |
| GraphModel.EmptyWf | main.cpp:468 | the cleared graph is well formed |
| GraphModel.Resize | main.cpp:477 | `resize` keeps the first rows and pads with empty rows up to the new length |
| GraphModel.AddNode | main.cpp:474-478 | the count grows by one; the old nodes are kept; the new node is at the click, unvisited and labelled with the old count; a well-formed graph gets one new empty row and stays well formed |
| GraphModel.AddEdge | main.cpp:501-502 | (v, w) is appended to row u; (u, w) is appended to row v only when undirected; no other row, node or count changes |
| GraphModel.AddSelfLoop | main.cpp:520 | (u, w) is appended to row u; nothing else changes |
| GraphModel.AddEdgeWf | main.cpp:501-502 | an edge between two different nodes keeps the graph well formed |
| GraphModel.AddSelfLoopWf | main.cpp:510-521 | a self-loop keeps the graph well formed exactly when the node has none yet |
| GraphModel.RemoveArc | main.cpp:550 | exactly the k-th arc of row u is erased and the order of the rest is kept; the reciprocal arc and every other row stay |
| GraphModel.RemoveArcWf | main.cpp:550 | deleting an arc keeps the graph well formed |
| GraphModel.RemoveNode | main.cpp:529-543 | node id and its row are erased and later nodes and rows move down one; every surviving row is renumbered; the count drops by one |
| GraphModel.Renumbered | main.cpp:531-541 | the row after renumbering is shorter than the old row by exactly the number of arcs into the deleted node |
| GraphModel.RenumberedArcs | main.cpp:531-541 | a renumbered row holds exactly the old arcs not pointing at id, with targets above id decremented |
| GraphModel.RenumberedInRange | main.cpp:531-541 | renumbered targets lie in range for the smaller graph |
| GraphModel.RenumberedSelfLoops | main.cpp:531-541 | a surviving node keeps as many self-loops as before |
| GraphModel.RemoveNodeWf | main.cpp:528-543 | deleting a node keeps the graph well formed |
| GraphModel.RemoveNodeExample | main.cpp:531-541 | deleting node 1 of four turns the arc 0->2 into 0->1 |
| GraphModel.LabelRepeatsAfterDelete | main.cpp:475 | labels are not renumbered: after a deletion and an add, the new node repeats the label of the last survivor |
| History.Inv | main.cpp:81-82 | the history invariant: the live graph and every snapshot are well formed, and the undo and redo stacks together hold at most MAX_UNDO snapshots |
| History.PushBounded | main.cpp:81-82 | the push appends; past MAX_UNDO it also drops the oldest entry |
| History.Save | main.cpp:76-84 | the live graph is unchanged and becomes the top of the undo stack; the redo stack is emptied; the undo stack stays within MAX_UNDO |
| History.Edit | main.cpp:76-84 | a save followed by an edit: the new graph is live, the redo stack is empty, and the graph before the edit is on top of the undo stack |
| History.Undo | main.cpp:332-338 | nothing on an empty undo stack; otherwise the top becomes live, the live graph goes on the redo stack, and the stacks move by one each |
| History.Redo | main.cpp:340-346 | nothing on an empty redo stack; otherwise the top becomes live, the live graph goes on the undo stack, and the stacks move by one each |
| History.StartInv | main.cpp:421-424 | the start-up session, with the empty graph as base snapshot, satisfies the history invariant |
| History.SaveInv | main.cpp:76-84 | saving keeps every graph well formed and both stacks together within MAX_UNDO |
| History.UndoInv | main.cpp:332-338 | undo keeps the history invariant |
| History.RedoInv | main.cpp:340-346 | redo keeps the history invariant even without eviction, because the two stacks together never exceed MAX_UNDO |
| History.EditInv | main.cpp:76-84 | a save followed by a well-formed edit keeps the history invariant |
| History.UndoRedoInverse | main.cpp:332-346 | redo after undo, and undo after redo, restore the whole session exactly, visited flags included |
| History.UndoRevertsEdit | main.cpp:332-338 | undo right after an edit brings back the previous graph and empties the redo stack except for the undone graph |
| History.EditClearsRedo | main.cpp:83 | after an edit, redo does nothing |
| History.SaveEvictsOldest | main.cpp:81-82 | saving on a full undo stack drops the oldest snapshot and keeps the rest in order |
| History.UndoAllEdits | main.cpp:332-338 | while nothing is evicted, undoing as many times as there were edits restores the graph and the undo stack |
| HitTest.NodeAt | main.cpp:94-101 | -1 exactly when no node's circle holds the point; otherwise the lowest index whose circle holds it |
| HitTest.NodeAtFrom | main.cpp:94-101 | from index i on, the first node whose circle holds the point, or -1 exactly when none from i on does |
| HitTest.FindNodeAt | main.cpp:94-101 | the loop returns NodeAt's answer |
| HitTest.Clamp | main.cpp:299 | the parameter is clamped to [0, 1] and kept when it is already inside |
| HitTest.ClosestParam | main.cpp:294-298 | the projection parameter lies in [0, 1] and is 0 for a zero-length segment |
| HitTest.SmallSquareSum | main.cpp:298 | between integer points the 1e-6 cut-off catches only a zero-length segment |
| HitTest.ClampedMinimum | main.cpp:296-299 | the clamped projection minimises the squared distance polynomial over [0, 1] |
| HitTest.SegmentDist2 | main.cpp:293-303 | the squared distance from the point to the clamped projection on the segment is non-negative |
| HitTest.SegmentDist2IsMinimum | main.cpp:293-303 | no point of the segment is closer to P than the distance computed |
| HitTest.StraightHit | main.cpp:307-316 | the straight-pass test: not a self-loop, seen from its lower end when undirected, and within 8.0 of the point |
| HitTest.LoopHit | main.cpp:319-325 | the self-loop test: a self-loop whose circle, radius 19 centred 33 above the node, holds the point |
| HitTest.ScanFrom | main.cpp:307-327 | one pass returns (-1,-1) or an arc at or after the starting position in row-major order |
| HitTest.ScanFromFirst | main.cpp:307-327 | one pass finds a hit exactly when there is one at or after the position, and then the first in row-major order |
| HitTest.EdgeNear | main.cpp:306-329 | (-1,-1) exactly when no straight arc and no self-loop is hit; a non-loop result is a straight hit (not u==v, and v>=u when undirected, within 8.0) with no straight hit before it in row-major order; a loop result is a loop hit, only when no straight arc is hit, with no loop hit before it in row-major order |
| HitTest.FindEdgeNear | main.cpp:306-329 | the two loop nests return EdgeNear's answer |
| Traversal.Fresh | main.cpp:270-273 | the row loop enqueues only unvisited targets of the row |
| Traversal.FreshFacts | main.cpp:270-273 | the row loop enqueues every unvisited target exactly once |
| Traversal.BfsFrom | main.cpp:265-274 | the queue loop from a given queue and visited set emits only nodes of the graph |
| Traversal.Bfs | main.cpp:263-275 | BFS from an in-range start emits the start first and only nodes of the graph |
| Traversal.BfsPrefix | main.cpp:265-274 | the queue is emitted first, in queue order |
| Traversal.BfsDistinct | main.cpp:263-275 | no node is emitted twice |
| Traversal.BfsSound | main.cpp:263-275 | every emitted node is reachable from the start |
| Traversal.BfsComplete | main.cpp:263-275 | every node reachable from the start is emitted |
| Traversal.BfsVisitsReachable | main.cpp:263-275 | BFS emits the start first and then exactly the nodes reachable from it, each once |
| Traversal.PushUnvisited | main.cpp:285-288 | the push loop keeps the stack below and pushes only unvisited targets of the row |
| Traversal.DfsRun | main.cpp:280-289 | the stack loop only adds to the visited set and emits only nodes of the graph |
| Traversal.Dfs | main.cpp:277-290 | DFS from an in-range start emits the start first and only nodes of the graph |
| Traversal.Preorder | main.cpp:277-290 | the reference recursive walk, arcs taken first to last, visits its start and only grows the visited set |
| Traversal.DfsMarks | main.cpp:280-289 | the nodes flagged at the end are those flagged before and those emitted |
| Traversal.DfsSkipTop | main.cpp:283 | a popped node that is already visited is skipped |
| Traversal.DfsDistinct | main.cpp:277-290 | no node is emitted twice, and none that was visited before |
| Traversal.DfsSound | main.cpp:277-290 | every emitted node is reachable from the start |
| Traversal.DfsVisitsReachable | main.cpp:277-290 | DFS emits the start first and then exactly the nodes reachable from it, each once |
| Traversal.DfsIsPreorder | main.cpp:285-288 | pushing the row in reverse makes the visit order the recursive preorder, arcs taken first to last |
| Traversal.ExampleBfs | main.cpp:263-275 | on 0:[1,2], 1:[3], 3:[4] BFS from 0 emits 0,1,2,3,4 |
| Traversal.ExampleDfs | main.cpp:277-290 | on the same graph DFS from 0 emits 0,1,3,4,2 |
| Interaction.InitialInv | main.cpp:421-424 | the start-up state satisfies the editor invariant |
| Interaction.Inv | main.cpp:44-48 | the editor invariant: the history invariant, a selection that names a node and exists only in Add Edge mode, and a tick that fits a DWORD |
| Interaction.Elapsed | main.cpp:485 | the unsigned 32-bit tick difference, including across a wrap of the counter |
| Interaction.PressAsWritten | main.cpp:460-469 | buttons 0, 1, 2, 3 and 6 select Add Node, Add Edge, BFS, DFS and Self Loop and drop the selection, keeping the history; 4 and 5 run Undo and Redo and keep the mode and the selection; 7 saves, clears the graph and drops the selection |
| Interaction.KeyAsWritten | main.cpp:431-436 | Esc and only Esc quits; u/U runs Undo and r/R runs Redo on the history, keeping the mode and the selection; other keys change nothing |
| Interaction.Press | main.cpp:460-469 | the same history and mode as written; the mode buttons and Clear drop the selection; Undo and Redo keep it when it still names a node of the restored graph and drop it otherwise |
| Interaction.Key | main.cpp:431-436 | the same history, mode and quit flag as written; after undo or redo the selection is kept when it still names a node of the restored graph and dropped otherwise; other keys change nothing |
| Interaction.DropStale | main.cpp:434-435 | the state is kept when its selection names a node of the live graph; otherwise only the selection is reset to -1 |
| Interaction.PressFixesOnlyStale | main.cpp:460-469 | the corrected button agrees with the code as written exactly when the code as written keeps the editor invariant |
| Interaction.KeyFixesOnlyStale | main.cpp:431-436 | the corrected key agrees with the code as written exactly when the code as written keeps the editor invariant |
| Interaction.PressInv | main.cpp:460-469 | every button keeps the editor invariant |
| Interaction.KeyInv | main.cpp:431-436 | every key keeps the editor invariant |
| Interaction.Marked | main.cpp:256-261 | after a traversal each node's flag says whether it was emitted |
| Interaction.ClickAddNode | main.cpp:473-480 | below the toolbar band the node is added to the live graph after a save; above it nothing changes; the mode and selection are kept |
| Interaction.ClickAddEdge | main.cpp:481-505 | a click off every node changes nothing; a quick click on the node that started the last selection resets the selection and the click record; otherwise with no selection the node is selected and recorded with the tick; a click on another node saves the graph, empties redo, drops the selection and, unless the prompt is cancelled, makes the live graph AddEdge from the selection to the node with the prompted weight (1 when unweighted) |
| Interaction.ClickSelfLoop | main.cpp:506-523 | a click off every node or on a node with a self-loop changes nothing; otherwise the graph is saved, redo emptied and, unless the prompt is cancelled, the live graph becomes AddSelfLoop on that node with the prompted weight (1 when unweighted) |
| Interaction.ClickDeleteNode | main.cpp:524-545 | a click off every node changes nothing; a click on a node makes the live graph RemoveNode of the node hit, with the old graph saved on top of the undo stack and redo emptied |
| Interaction.ClickDeleteEdge | main.cpp:546-553 | when findEdgeNear finds nothing the state is unchanged; otherwise the live graph becomes RemoveArc of the arc it picks, after a save that empties redo |
| Interaction.ClickTraverse | main.cpp:554-561 | the history and the arcs are kept; the visit order is empty exactly when no node is hit and otherwise starts at the node hit |
| Interaction.Click | main.cpp:473-561 | the mode is kept; only BFS and DFS clicks emit visits; with no mode a click changes nothing; the prompt's reply is -1 or a weight in 1..999999 |
| Interaction.AddNodeInv | main.cpp:473-480 | an Add Node click keeps the editor invariant |
| Interaction.AddEdgeInv | main.cpp:481-505 | an Add Edge click keeps the editor invariant |
| Interaction.SelfLoopInv | main.cpp:507-523 | a Self Loop click keeps the editor invariant |
| Interaction.DeleteNodeInv | main.cpp:525-545 | a Delete Node click keeps the editor invariant |
| Interaction.DeleteEdgeInv | main.cpp:546-553 | a Delete Edge click keeps the editor invariant |
| Interaction.TraverseInv | main.cpp:554-561 | a BFS or DFS click keeps the editor invariant |
| Interaction.ClickInv | main.cpp:473-561 | a canvas click in any mode keeps the editor invariant |
| Interaction.DoubleClickCancels | main.cpp:485-490 | a click on the last selected node within 400 ticks, across a wrap too, cancels the selection and leaves the graph alone |
| Interaction.SecondClickAddsEdge | main.cpp:493-503 | a click on another node saves a snapshot; unless the prompt is cancelled it adds the arc, and the reciprocal arc when undirected; the selection is dropped either way |
| Interaction.SlowClickOnSelectionIgnored | main.cpp:492-493 | a slow second click on the selected node changes nothing |
| Interaction.SecondSelfLoopRefused | main.cpp:510-512 | a Self Loop click on a node that has a self-loop changes nothing |
| Interaction.UndoAfterAddNode | main.cpp:434 | undo right after adding a node brings the previous graph back |
| Interaction.BfsClickVisitsReachable | main.cpp:554-557 | a BFS click emits the clicked node first, then each reachable node once, and leaves exactly those flagged |
| Interaction.DfsClickVisitsReachable | main.cpp:558-561 | the same for a DFS click |
| Interaction.TwoNodesSelected | main.cpp:473-492 | a state reached from start-up by two Add Node clicks, the Add Edge button and a click on node 1: two nodes, node 1 selected, three snapshots on the undo stack |
| Interaction.UndoKeepsStaleSelection | main.cpp:434 | as written, undo in that state leaves node 1 selected in a one-node graph, which breaks the invariant |
| Editor.MarkRow | main.cpp:532-534 | the first inner loop marks the arcs into id with target -1 |
| Editor.Marks | main.cpp:532-534 | the row of the same length and weights, with exactly the arcs into id given target -1 |
| Editor.CompactRow | main.cpp:535-541 | the second inner loop leaves the renumbered row |
| Editor.RenumberRow | main.cpp:532-541 | both inner loops together leave the renumbered row |
| Editor.RenumberRows | main.cpp:531-542 | the outer loop renumbers every row |
| Editor.EnqueueFresh | main.cpp:270-273 | the row loop flags the row's targets and enqueues the fresh ones in row order |
| Editor.BfsMarking | main.cpp:265-274 | the queue loop emits the BFS order and leaves exactly the emitted nodes flagged |
| Editor.PushRow | main.cpp:285-288 | the downward push loop leaves the stack PushUnvisited describes |
| Editor.DfsMarking | main.cpp:280-289 | the stack loop emits the DFS order and leaves exactly the emitted nodes flagged |
| Editor.Editor.constructor | main.cpp:421-424 | the start-up state, which satisfies the invariant |
| Editor.Editor.SaveSnapshot | main.cpp:76-84 | the new state is Save of the old session; nothing else changes |
| Editor.Editor.ApplySnapshot | main.cpp:87-91 | the live graph becomes the snapshot; nothing else changes |
| Editor.Editor.DoUndo | main.cpp:332-338 | the new state is Undo of the old session |
| Editor.Editor.DoRedo | main.cpp:340-346 | the new state is Redo of the old session |
| Editor.Editor.PressButton | main.cpp:460-469 | the new state is Press of the old one, and the invariant holds |
| Editor.Editor.Key | main.cpp:431-436 | the new state and the quit flag are Key of the old state, and the invariant holds |
| Editor.Editor.DropStaleSelection | main.cpp:434-435 | the new state is DropStale of the old one |
| Editor.Editor.ResetVisited | main.cpp:256 | the flags of nodes 0..nodeCount-1 are cleared; nothing else changes |
| Editor.Editor.EraseNode | main.cpp:529-543 | the live graph becomes RemoveNode of the old one; nothing else changes |
| Editor.Editor.ClickAddNode | main.cpp:473-480 | the new state is the Add Node transition |
| Editor.Editor.ClickAddEdge | main.cpp:481-505 | the new state is the Add Edge transition |
| Editor.Editor.ClickSelfLoop | main.cpp:507-523 | the new state is the Self Loop transition |
| Editor.Editor.ClickDeleteNode | main.cpp:525-545 | the new state is the Delete Node transition |
| Editor.Editor.ClickDeleteEdge | main.cpp:546-553 | the new state is the Delete Edge transition |
| Editor.Editor.ClickTraverse | main.cpp:554-561 | the new state and the visit order are the traversal transition |
| Editor.Editor.Click | main.cpp:473-561 | the new state and visit order are the Click transition for the current mode, and the invariant holds |
| Editor.Editor.BfsVisual | main.cpp:263-275 | an out-of-range start changes nothing; otherwise it returns the BFS order and flags exactly the emitted nodes |
| Editor.Editor.DfsVisual | main.cpp:277-290 | an out-of-range start changes nothing; otherwise it returns the DFS order and flags exactly the emitted nodes |

## Left out

- Rendering is not modelled: buttons, the toolbar, arcs, arrow heads, self-loop ellipses, labels, the double-buffer pages, and every `drawAll` call. They draw and do not change the model's state.
- The visit pacing (`delay` in `visualizeVisit`) is replaced by the returned visit order. A visit's flag update is modelled.
- The weight prompt's box drawing, clamping and keyboard polling are not modelled. The keys are a sequence of key codes, and inside a click the prompt's answer is the parameter `reply`.
- `GetTickCount` and the mouse position are parameters (`now`, `mx`, `my`). `now` is taken as a 32-bit tick value.
- The start-up console questions are replaced by the constructor's `weighted` and `directed` parameters.
- The toolbar's button rectangles and hover tracking are not modelled. `PressButton` takes the button index; `Click` is a click away from the toolbar.
- HitTest.SegmentDist2: `distPointToSegment` works in floating point and takes a square root. The model uses exact reals and compares the squared distance with the squared threshold 8.0. Rounding is not modelled.
- C `int` overflow in coordinates, squared distances and label numbers is not modelled; values are unbounded integers.
- No toolbar button selects `MODE_NONE`, Delete Node or Delete Edge. They are still modelled as modes of the state, with their click branches.

## Findings

| source | as written | input that shows it | evidently intended | confidence | as-written member | corrected member |
|---|---|---|---|---|---|---|
| main.cpp:434-435, 465-466 | undo and redo replace the graph but keep `selNode` | add two nodes, choose Add Edge, click node 1, press `u`: the graph has one node while `selNode == 1`; the next click on node 0 pushes onto `adj[1]` past the end of a one-row list | undo and redo drop a selection that no longer names a node of the restored graph; a selection that still names one is kept | not executed | Interaction.KeyAsWritten, Interaction.PressAsWritten, Interaction.UndoKeepsStaleSelection | Interaction.Key, Interaction.Press, Interaction.KeyInv, Interaction.PressInv, Interaction.KeyFixesOnlyStale, Interaction.PressFixesOnlyStale, Editor.Editor.Key, Editor.Editor.PressButton |
