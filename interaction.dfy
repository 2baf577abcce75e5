/**
 * The editor's interaction state machine in `main` (main.cpp:419-565) as
 * functions of the state before an event: toolbar buttons, the keys that undo
 * and redo, and a click on the canvas in each mode. The class in module
 * Editor carries out the same steps in place and is proved equal to these.
 */
module Interaction {
  import opened GraphModel
  import opened History
  import HitTest
  import Traversal
  import WeightPrompt

  /** The toolbar height; Add Node ignores clicks at y <= UI_H + 10. */
  const UI_H := 70
  const DOUBLE_CLICK_MS := 400
  /** GetTickCount returns a 32-bit DWORD, so tick arithmetic wraps. */
  const TICKS := 0x1_0000_0000

  datatype Mode =
    | AddNodeMode | AddEdgeMode | BfsMode | DfsMode | SelfLoopMode
    | DeleteNodeMode | DeleteEdgeMode | NoMode

  /** The editor's mutable globals: the graph and its history, the mode, the
      node selected as the first end of an edge (-1 for none), and the tick
      and node of the click that started the last selection. */
  datatype UiState = UiState(session: Session, mode: Mode, sel: int, lastTime: int, lastNode: int)

  /** What the editor keeps true between events: the history invariant, a
      selection that names a node and exists only while adding edges, and a
      tick value that fits a DWORD. */
  predicate Inv(u: UiState) {
    && History.Inv(u.session)
    && -1 <= u.sel < u.session.live.nodeCount
    && (u.mode != AddEdgeMode ==> u.sel == -1)
    && 0 <= u.lastTime < TICKS
  }

  /** The state at start-up (main.cpp:421-424, 68-69). */
  const Initial := UiState(Start, AddNodeMode, -1, 0, -1)

  lemma InitialInv()
    ensures Inv(Initial)
  {
    StartInv();
  }

  /** `now - lastClickTime` on unsigned 32-bit ticks (main.cpp:485). */
  function Elapsed(now: int, last: int): (e: int)
    ensures 0 <= e < TICKS
    ensures 0 <= last <= now < TICKS ==> e == now - last
    ensures 0 <= now < last < TICKS ==> e == now - last + TICKS
  {
    (now - last) % TICKS
  }

  // ---------------------------------------------------------------------
  // Toolbar and keys

  /** A toolbar button as written (main.cpp:460-469): 0 Add Node, 1 Add Edge,
      2 BFS, 3 DFS and 6 Self Loop choose a mode and drop the selection;
      4 Undo and 5 Redo keep it; 7 Clear saves a snapshot and empties the
      graph. */
  function PressAsWritten(u: UiState, b: int): (r: UiState)
    requires 0 <= b < 8
    ensures b in {0, 1, 2, 3, 6, 7} ==> r.sel == -1
    ensures b in {4, 5} ==> r.sel == u.sel && r.mode == u.mode
    ensures b == 0 ==> r.mode == AddNodeMode
    ensures b == 1 ==> r.mode == AddEdgeMode
    ensures b == 2 ==> r.mode == BfsMode
    ensures b == 3 ==> r.mode == DfsMode
    ensures b == 6 ==> r.mode == SelfLoopMode
    ensures b == 7 ==> r.mode == u.mode
    ensures b == 4 ==> r.session == Undo(u.session)
    ensures b == 5 ==> r.session == Redo(u.session)
    ensures b == 7 ==> r.session == Edit(u.session, Empty)
    ensures b !in {4, 5, 7} ==> r.session == u.session
    ensures r.lastTime == u.lastTime && r.lastNode == u.lastNode
  {
    match b
    case 0 => u.(mode := AddNodeMode, sel := -1)
    case 1 => u.(mode := AddEdgeMode, sel := -1)
    case 2 => u.(mode := BfsMode, sel := -1)
    case 3 => u.(mode := DfsMode, sel := -1)
    case 4 => u.(session := Undo(u.session))
    case 5 => u.(session := Redo(u.session))
    case 6 => u.(mode := SelfLoopMode, sel := -1)
    case 7 => u.(session := Edit(u.session, Empty), sel := -1)
  }

  /** The keyboard as written (main.cpp:431-436): ESC quits, u/U undoes and
      r/R redoes, keeping the selection; other keys are ignored. */
  function KeyAsWritten(u: UiState, ch: char): (r: (UiState, bool))
    ensures r.1 <==> ch == 27 as char
    ensures r.0.sel == u.sel && r.0.mode == u.mode
    ensures r.0.lastTime == u.lastTime && r.0.lastNode == u.lastNode
    ensures ch in {'u', 'U'} ==> r.0.session == Undo(u.session)
    ensures ch in {'r', 'R'} ==> r.0.session == Redo(u.session)
    ensures ch !in {'u', 'U', 'r', 'R'} ==> r.0 == u
  {
    if ch == 27 as char then (u, true)
    else if ch == 'u' || ch == 'U' then (u.(session := Undo(u.session)), false)
    else if ch == 'r' || ch == 'R' then (u.(session := Redo(u.session)), false)
    else (u, false)
  }

  /** The state with a selection that no longer names a node of the live
      graph dropped; a selection that still names one is kept. */
  function DropStale(v: UiState): (r: UiState)
    ensures r == v || r == v.(sel := -1)
    ensures r.sel == -1 || r.sel < r.session.live.nodeCount
    ensures v.sel < v.session.live.nodeCount ==> r == v
  {
    if v.sel < v.session.live.nodeCount then v else v.(sel := -1)
  }

  /** A toolbar button as intended: as written, except that after Undo or
      Redo a selection past the end of the restored graph is dropped. */
  function Press(u: UiState, b: int): (r: UiState)
    requires 0 <= b < 8
    ensures r.session == PressAsWritten(u, b).session && r.mode == PressAsWritten(u, b).mode
    ensures r.lastTime == u.lastTime && r.lastNode == u.lastNode
    ensures b in {0, 1, 2, 3, 6, 7} ==> r.sel == -1
    ensures b in {4, 5} && u.sel < r.session.live.nodeCount ==> r.sel == u.sel
    ensures b in {4, 5} && u.sel >= r.session.live.nodeCount ==> r.sel == -1
    ensures r.sel == u.sel || r.sel == -1
  {
    DropStale(PressAsWritten(u, b))
  }

  /** A key as intended: as written, except that after undo or redo a
      selection past the end of the restored graph is dropped. */
  function Key(u: UiState, ch: char): (r: (UiState, bool))
    ensures r.1 == KeyAsWritten(u, ch).1 && r.0.session == KeyAsWritten(u, ch).0.session
    ensures r.0.mode == u.mode && (r.0.sel == u.sel || r.0.sel == -1)
    ensures ch in {'u', 'U', 'r', 'R'} && u.sel < r.0.session.live.nodeCount ==> r.0.sel == u.sel
    ensures ch in {'u', 'U', 'r', 'R'} && u.sel >= r.0.session.live.nodeCount ==> r.0.sel == -1
    ensures ch !in {'u', 'U', 'r', 'R'} ==> r.0 == u
  {
    var (v, quit) := KeyAsWritten(u, ch);
    if ch in {'u', 'U', 'r', 'R'} then (DropStale(v), quit) else (v, quit)
  }

  lemma PressInv(u: UiState, b: int)
    requires Inv(u) && 0 <= b < 8
    ensures Inv(Press(u, b))
  {
    if b == 4 {
      UndoInv(u.session);
    } else if b == 5 {
      RedoInv(u.session);
    } else if b == 7 {
      EmptyWf();
      EditInv(u.session, Empty);
    }
  }

  lemma KeyInv(u: UiState, ch: char)
    requires Inv(u)
    ensures Inv(Key(u, ch).0)
  {
    if ch == 'u' || ch == 'U' {
      UndoInv(u.session);
    } else if ch == 'r' || ch == 'R' {
      RedoInv(u.session);
    }
  }

  /** The correction changes a button press exactly where the code as
      written would leave the editor outside its invariant. */
  lemma PressFixesOnlyStale(u: UiState, b: int)
    requires Inv(u) && 0 <= b < 8
    ensures Press(u, b) == PressAsWritten(u, b) <==> Inv(PressAsWritten(u, b))
  {
    if b == 4 {
      UndoInv(u.session);
    } else if b == 5 {
      RedoInv(u.session);
    } else if b == 7 {
      EmptyWf();
      EditInv(u.session, Empty);
    }
  }

  /** The same for the undo and redo keys. */
  lemma KeyFixesOnlyStale(u: UiState, ch: char)
    requires Inv(u)
    ensures Key(u, ch) == KeyAsWritten(u, ch) <==> Inv(KeyAsWritten(u, ch).0)
  {
    if ch == 'u' || ch == 'U' {
      UndoInv(u.session);
    } else if ch == 'r' || ch == 'R' {
      RedoInv(u.session);
    }
  }

  // ---------------------------------------------------------------------
  // A click on the canvas

  /** The node list after a traversal: resetVisited, then the flag of every
      emitted node set. */
  function Marked(nodes: seq<Node>, order: seq<int>): (r: seq<Node>)
    ensures |r| == |nodes|
    ensures forall i :: 0 <= i < |r| ==> r[i] == nodes[i].(visited := i in order)
  {
    seq(|nodes|, i requires 0 <= i < |nodes| => nodes[i].(visited := i in order))
  }

  lemma LiveIndexed(u: UiState)
    requires Inv(u)
    ensures var g := u.session.live;
      g.nodeCount == |g.nodes| == |g.adj| && Traversal.Closed(g.adj) && HitTest.Indexed(g.nodes, g.adj)
  {
  }

  /** Add Node (main.cpp:473-480): below the toolbar, save a snapshot and
      append a node. */
  function ClickAddNode(u: UiState, mx: int, my: int): (r: UiState)
    ensures r.mode == u.mode && r.sel == u.sel && r.lastTime == u.lastTime && r.lastNode == u.lastNode
    ensures my <= UI_H + 10 ==> r == u
    ensures my > UI_H + 10 ==>
      && r.session.live == AddNode(u.session.live, mx, my)
      && r.session.redo == [] && |r.session.undo| > 0 && r.session.undo[|r.session.undo| - 1] == u.session.live
  {
    if my > UI_H + 10 then u.(session := Edit(u.session, AddNode(u.session.live, mx, my))) else u
  }

  /** Add Edge (main.cpp:481-505). A quick second click on the node that
      started the last selection cancels; a first click selects; a click on
      another node saves a snapshot, asks for the weight (reply), and adds the
      edge unless the prompt was cancelled. A slow second click on the
      selected node does nothing. */
  function ClickAddEdge(u: UiState, weighted: bool, directed: bool, mx: int, my: int, now: int, reply: int): (r: UiState)
    requires WeightPrompt.IsAnswer(reply)
    requires Inv(u)
    ensures r.mode == u.mode
    ensures r.session.live.nodes == u.session.live.nodes && r.session.live.nodeCount == u.session.live.nodeCount
    ensures r.sel == -1 || r.sel == u.sel || r.sel == HitTest.NodeAt(u.session.live.nodes, u.session.live.nodeCount, mx, my)
    ensures r.session != u.session ==> r.session.redo == [] && r.session.undo == Save(u.session).undo
    ensures HitTest.NodeAt(u.session.live.nodes, u.session.live.nodeCount, mx, my) == -1 ==> r == u
    ensures var id := HitTest.NodeAt(u.session.live.nodes, u.session.live.nodeCount, mx, my);
      id != -1 && u.lastNode == id && Elapsed(now, u.lastTime) <= DOUBLE_CLICK_MS ==>
        r == u.(sel := -1, lastNode := -1, lastTime := 0)
    ensures var id := HitTest.NodeAt(u.session.live.nodes, u.session.live.nodeCount, mx, my);
      id != -1 && (u.lastNode != id || Elapsed(now, u.lastTime) > DOUBLE_CLICK_MS) && u.sel == -1 ==>
        r == u.(sel := id, lastNode := id, lastTime := now)
    ensures var g := u.session.live; var id := HitTest.NodeAt(g.nodes, g.nodeCount, mx, my);
      id != -1 && (u.lastNode != id || Elapsed(now, u.lastTime) > DOUBLE_CLICK_MS) && u.sel != -1 && u.sel != id ==>
        && r.sel == -1 && r.lastNode == u.lastNode && r.lastTime == u.lastTime
        && r.session.redo == [] && r.session.undo == Save(u.session).undo
        && r.session.live == (if weighted && reply < 0 then g
                              else AddEdge(g, u.sel, id, if weighted then reply else 1, directed))
  {
    var g := u.session.live;
    var id := HitTest.NodeAt(g.nodes, g.nodeCount, mx, my);
    if id == -1 then u
    else if u.lastNode == id && Elapsed(now, u.lastTime) <= DOUBLE_CLICK_MS then
      u.(sel := -1, lastNode := -1, lastTime := 0)
    else if u.sel == -1 then u.(sel := id, lastNode := id, lastTime := now)
    else if u.sel == id then u
    else if weighted && reply < 0 then u.(session := Save(u.session), sel := -1)
    else
      var w := if weighted then reply else 1;
      u.(session := Edit(u.session, AddEdge(g, u.sel, id, w, directed)), sel := -1)
  }

  /** Self Loop (main.cpp:506-523): on a node without a self-loop, save a
      snapshot, ask for the weight and add the loop unless cancelled. */
  function ClickSelfLoop(u: UiState, weighted: bool, mx: int, my: int, reply: int): (r: UiState)
    requires WeightPrompt.IsAnswer(reply)
    requires Inv(u)
    ensures r.mode == u.mode && r.sel == u.sel && r.lastTime == u.lastTime && r.lastNode == u.lastNode
    ensures r.session.live.nodes == u.session.live.nodes && r.session.live.nodeCount == u.session.live.nodeCount
    ensures r.session != u.session ==> r.session.redo == [] && r.session.undo == Save(u.session).undo
    ensures var g := u.session.live; var id := HitTest.NodeAt(g.nodes, g.nodeCount, mx, my);
      id == -1 || HasSelfLoop(g.adj[id], id) ==> r == u
    ensures var g := u.session.live; var id := HitTest.NodeAt(g.nodes, g.nodeCount, mx, my);
      id != -1 && !HasSelfLoop(g.adj[id], id) ==>
        && r.session.redo == [] && r.session.undo == Save(u.session).undo
        && r.session.live == (if weighted && reply < 0 then g
                              else AddSelfLoop(g, id, if weighted then reply else 1))
  {
    var g := u.session.live;
    var id := HitTest.NodeAt(g.nodes, g.nodeCount, mx, my);
    if id == -1 || HasSelfLoop(g.adj[id], id) then u
    else if weighted && reply < 0 then u.(session := Save(u.session))
    else
      var w := if weighted then reply else 1;
      u.(session := Edit(u.session, AddSelfLoop(g, id, w)))
  }

  /** Delete Node (main.cpp:524-545). */
  function ClickDeleteNode(u: UiState, mx: int, my: int): (r: UiState)
    requires Inv(u)
    ensures r.mode == u.mode && r.sel == u.sel && r.lastTime == u.lastTime && r.lastNode == u.lastNode
    ensures HitTest.NodeAt(u.session.live.nodes, u.session.live.nodeCount, mx, my) == -1 ==> r == u
    ensures HitTest.NodeAt(u.session.live.nodes, u.session.live.nodeCount, mx, my) != -1 ==>
      r.session.live.nodeCount == u.session.live.nodeCount - 1 && r.session.redo == []
    ensures var g := u.session.live; var id := HitTest.NodeAt(g.nodes, g.nodeCount, mx, my);
      id != -1 ==>
        && r.session.live == RemoveNode(g, id)
        && r.session.undo == Save(u.session).undo && r.session.undo[|r.session.undo| - 1] == g
  {
    var g := u.session.live;
    var id := HitTest.NodeAt(g.nodes, g.nodeCount, mx, my);
    if id == -1 then u else u.(session := Edit(u.session, RemoveNode(g, id)))
  }

  /** Delete Edge (main.cpp:546-553): the arc findEdgeNear picks, if any. */
  function ClickDeleteEdge(u: UiState, directed: bool, mx: int, my: int): (r: UiState)
    requires Inv(u)
    ensures r.mode == u.mode && r.sel == u.sel && r.lastTime == u.lastTime && r.lastNode == u.lastNode
    ensures r.session.live.nodes == u.session.live.nodes && r.session.live.nodeCount == u.session.live.nodeCount
    ensures r.session != u.session ==> r.session.redo == [] && r.session.undo == Save(u.session).undo
    ensures var g := u.session.live; var e := HitTest.EdgeNear(g.nodes, g.adj, directed, mx, my);
      && (e.0 == -1 ==> r == u)
      && (e.0 != -1 ==>
            && r.session.live == RemoveArc(g, e.0, e.1)
            && r.session.redo == [] && r.session.undo == Save(u.session).undo)
  {
    var g := u.session.live;
    LiveIndexed(u);
    var e := HitTest.EdgeNear(g.nodes, g.adj, directed, mx, my);
    if e.0 == -1 then u else u.(session := Edit(u.session, RemoveArc(g, e.0, e.1)))
  }

  /** BFS and DFS (main.cpp:554-561): the traversal from the node clicked;
      the flags end up set on the emitted nodes; no snapshot is saved. */
  function ClickTraverse(u: UiState, bfs: bool, mx: int, my: int): (r: (UiState, seq<int>))
    requires Inv(u)
    ensures r.0.mode == u.mode && r.0.sel == u.sel && r.0.lastTime == u.lastTime && r.0.lastNode == u.lastNode
    ensures r.0.session.undo == u.session.undo && r.0.session.redo == u.session.redo
    ensures r.0.session.live.adj == u.session.live.adj && r.0.session.live.nodeCount == u.session.live.nodeCount
    ensures r.1 == [] <==> HitTest.NodeAt(u.session.live.nodes, u.session.live.nodeCount, mx, my) == -1
    ensures r.1 != [] ==> r.1[0] == HitTest.NodeAt(u.session.live.nodes, u.session.live.nodeCount, mx, my)
  {
    var g := u.session.live;
    var id := HitTest.NodeAt(g.nodes, g.nodeCount, mx, my);
    if id == -1 then (u, [])
    else
      var order := if bfs then Traversal.Bfs(g.adj, id) else Traversal.Dfs(g.adj, id);
      (u.(session := u.session.(live := g.(nodes := Marked(g.nodes, order)))), order)
  }

  /** A click on the canvas, away from the toolbar buttons, in the current
      mode; `now` is the tick count and `reply` what the weight prompt
      returns. The second component is the visit order of a traversal. */
  function Click(u: UiState, weighted: bool, directed: bool, mx: int, my: int, now: int, reply: int)
    : (r: (UiState, seq<int>))
    requires WeightPrompt.IsAnswer(reply)
    requires Inv(u) && 0 <= now < TICKS
    ensures r.0.mode == u.mode
    ensures u.mode !in {BfsMode, DfsMode} ==> r.1 == []
    ensures u.mode == NoMode ==> r.0 == u
  {
    match u.mode
    case AddNodeMode => (ClickAddNode(u, mx, my), [])
    case AddEdgeMode => (ClickAddEdge(u, weighted, directed, mx, my, now, reply), [])
    case SelfLoopMode => (ClickSelfLoop(u, weighted, mx, my, reply), [])
    case DeleteNodeMode => (ClickDeleteNode(u, mx, my), [])
    case DeleteEdgeMode => (ClickDeleteEdge(u, directed, mx, my), [])
    case BfsMode => ClickTraverse(u, true, mx, my)
    case DfsMode => ClickTraverse(u, false, mx, my)
    case NoMode => (u, [])
  }

  // ---------------------------------------------------------------------
  // What a click keeps and does

  lemma AddNodeInv(u: UiState, mx: int, my: int)
    requires Inv(u)
    ensures Inv(ClickAddNode(u, mx, my))
  {
    if my > UI_H + 10 {
      EditInv(u.session, AddNode(u.session.live, mx, my));
    }
  }

  lemma AddEdgeInv(u: UiState, weighted: bool, directed: bool, mx: int, my: int, now: int, reply: int)
    requires WeightPrompt.IsAnswer(reply)
    requires Inv(u) && 0 <= now < TICKS && u.mode == AddEdgeMode
    ensures Inv(ClickAddEdge(u, weighted, directed, mx, my, now, reply))
  {
    var g := u.session.live;
    var id := HitTest.NodeAt(g.nodes, g.nodeCount, mx, my);
    var r := ClickAddEdge(u, weighted, directed, mx, my, now, reply);
    if id == -1 {
      assert r == u;
    } else if u.lastNode == id && Elapsed(now, u.lastTime) <= DOUBLE_CLICK_MS {
      assert r == u.(sel := -1, lastNode := -1, lastTime := 0);
    } else if u.sel == -1 {
      assert r == u.(sel := id, lastNode := id, lastTime := now);
    } else if u.sel == id {
      assert r == u;
    } else if weighted && reply < 0 {
      assert r == u.(session := Save(u.session), sel := -1);
      SaveInv(u.session);
    } else {
      AddEdgeKeepsInv(u, id, if weighted then reply else 1, directed);
    }
  }

  lemma AddEdgeKeepsInv(u: UiState, id: int, w: int, directed: bool)
    requires Inv(u) && 0 <= u.sel < u.session.live.nodeCount && 0 <= id < u.session.live.nodeCount && u.sel != id
    ensures Inv(u.(session := Edit(u.session, AddEdge(u.session.live, u.sel, id, w, directed)), sel := -1))
  {
    AddEdgeWf(u.session.live, u.sel, id, w, directed);
    EditInv(u.session, AddEdge(u.session.live, u.sel, id, w, directed));
  }

  lemma SelfLoopInv(u: UiState, weighted: bool, mx: int, my: int, reply: int)
    requires WeightPrompt.IsAnswer(reply)
    requires Inv(u)
    ensures Inv(ClickSelfLoop(u, weighted, mx, my, reply))
  {
    var g := u.session.live;
    var id := HitTest.NodeAt(g.nodes, g.nodeCount, mx, my);
    if id != -1 && !HasSelfLoop(g.adj[id], id) {
      SaveInv(u.session);
      var w := if weighted then reply else 1;
      AddSelfLoopWf(g, id, w);
      EditInv(u.session, AddSelfLoop(g, id, w));
    }
  }

  lemma DeleteNodeInv(u: UiState, mx: int, my: int)
    requires Inv(u) && u.mode == DeleteNodeMode
    ensures Inv(ClickDeleteNode(u, mx, my))
  {
    var g := u.session.live;
    var id := HitTest.NodeAt(g.nodes, g.nodeCount, mx, my);
    if id != -1 {
      RemoveNodeWf(g, id);
      EditInv(u.session, RemoveNode(g, id));
    }
  }

  lemma DeleteEdgeInv(u: UiState, directed: bool, mx: int, my: int)
    requires Inv(u) && u.mode == DeleteEdgeMode
    ensures Inv(ClickDeleteEdge(u, directed, mx, my))
  {
    var g := u.session.live;
    LiveIndexed(u);
    var e := HitTest.EdgeNear(g.nodes, g.adj, directed, mx, my);
    if e.0 != -1 {
      RemoveArcWf(g, e.0, e.1);
      EditInv(u.session, RemoveArc(g, e.0, e.1));
    }
  }

  lemma TraverseInv(u: UiState, bfs: bool, mx: int, my: int)
    requires Inv(u)
    ensures Inv(ClickTraverse(u, bfs, mx, my).0)
  {
  }

  /** Every click keeps the invariant: the graph stays well formed, the
      history bounded, and a selection names a node. */
  lemma ClickInv(u: UiState, weighted: bool, directed: bool, mx: int, my: int, now: int, reply: int)
    requires WeightPrompt.IsAnswer(reply)
    requires Inv(u) && 0 <= now < TICKS
    ensures Inv(Click(u, weighted, directed, mx, my, now, reply).0)
  {
    match u.mode
    case AddNodeMode => AddNodeInv(u, mx, my);
    case AddEdgeMode => AddEdgeInv(u, weighted, directed, mx, my, now, reply);
    case SelfLoopMode => SelfLoopInv(u, weighted, mx, my, reply);
    case DeleteNodeMode => DeleteNodeInv(u, mx, my);
    case DeleteEdgeMode => DeleteEdgeInv(u, directed, mx, my);
    case BfsMode => TraverseInv(u, true, mx, my);
    case DfsMode => TraverseInv(u, false, mx, my);
    case NoMode =>
  }

  /** A second click on the node that started the selection, within
      DOUBLE_CLICK_MS ticks (across a wrap of the tick counter too), cancels
      the selection and forgets the click; the graph is untouched. */
  lemma DoubleClickCancels(u: UiState, weighted: bool, directed: bool, mx: int, my: int, now: int, reply: int)
    requires WeightPrompt.IsAnswer(reply)
    requires Inv(u) && 0 <= now < TICKS && u.mode == AddEdgeMode
    requires var g := u.session.live; u.lastNode != -1 && HitTest.NodeAt(g.nodes, g.nodeCount, mx, my) == u.lastNode
    requires if u.lastTime <= now then now - u.lastTime <= DOUBLE_CLICK_MS
             else now + TICKS - u.lastTime <= DOUBLE_CLICK_MS
    ensures Click(u, weighted, directed, mx, my, now, reply).0 == u.(sel := -1, lastNode := -1, lastTime := 0)
  {
  }

  /** A click on a node other than the selected one, after the first click
      and not a double click: a snapshot of the graph is saved, and unless
      the weight prompt was cancelled the edge is added, both arcs in an
      undirected graph; either way the selection is dropped. */
  lemma SecondClickAddsEdge(u: UiState, weighted: bool, directed: bool, mx: int, my: int, now: int, reply: int)
    requires WeightPrompt.IsAnswer(reply)
    requires Inv(u) && 0 <= now < TICKS && u.mode == AddEdgeMode && u.sel != -1
    requires var g := u.session.live; var id := HitTest.NodeAt(g.nodes, g.nodeCount, mx, my);
      id != -1 && id != u.sel && (u.lastNode != id || Elapsed(now, u.lastTime) > DOUBLE_CLICK_MS)
    ensures var g := u.session.live; var id := HitTest.NodeAt(g.nodes, g.nodeCount, mx, my);
      var r := Click(u, weighted, directed, mx, my, now, reply).0;
      && r.sel == -1 && r.session.redo == [] && r.session.undo == Save(u.session).undo
      && (weighted && reply < 0 ==> r.session.live == g)
      && (!weighted || reply >= 0 ==>
            var w := if weighted then reply else 1;
            && r.session.live.adj[u.sel] == g.adj[u.sel] + [Arc(id, w)]
            && r.session.live.adj[id] == g.adj[id] + (if directed then [] else [Arc(u.sel, w)]))
  {
  }

  /** A slow second click on the selected node changes nothing. */
  lemma SlowClickOnSelectionIgnored(u: UiState, weighted: bool, directed: bool, mx: int, my: int, now: int, reply: int)
    requires WeightPrompt.IsAnswer(reply)
    requires Inv(u) && 0 <= now < TICKS && u.mode == AddEdgeMode && u.sel != -1
    requires var g := u.session.live; HitTest.NodeAt(g.nodes, g.nodeCount, mx, my) == u.sel
    requires u.lastNode != u.sel || Elapsed(now, u.lastTime) > DOUBLE_CLICK_MS
    ensures Click(u, weighted, directed, mx, my, now, reply).0 == u
  {
  }

  /** A node keeps at most one self-loop: a click on a node that has one
      changes nothing. */
  lemma SecondSelfLoopRefused(u: UiState, weighted: bool, directed: bool, mx: int, my: int, now: int, reply: int)
    requires WeightPrompt.IsAnswer(reply)
    requires Inv(u) && 0 <= now < TICKS && u.mode == SelfLoopMode
    requires var g := u.session.live; var id := HitTest.NodeAt(g.nodes, g.nodeCount, mx, my);
      id != -1 && HasSelfLoop(g.adj[id], id)
    ensures Click(u, weighted, directed, mx, my, now, reply).0 == u
  {
  }

  /** Undo right after a click that added a node brings the graph back. */
  lemma UndoAfterAddNode(u: UiState, weighted: bool, directed: bool, mx: int, my: int, now: int, reply: int)
    requires WeightPrompt.IsAnswer(reply)
    requires Inv(u) && 0 <= now < TICKS && u.mode == AddNodeMode && my > UI_H + 10
    ensures var r := Click(u, weighted, directed, mx, my, now, reply).0;
      Key(r, 'u').0.session.live == u.session.live
  {
    UndoRevertsEdit(u.session, AddNode(u.session.live, mx, my));
  }

  /** A BFS click on a node emits that node first and then every node
      reachable from it, each once, and leaves exactly those flagged. */
  lemma BfsClickVisitsReachable(u: UiState, weighted: bool, directed: bool, mx: int, my: int, now: int, reply: int)
    requires WeightPrompt.IsAnswer(reply)
    requires Inv(u) && 0 <= now < TICKS && u.mode == BfsMode
    requires var g := u.session.live; HitTest.NodeAt(g.nodes, g.nodeCount, mx, my) != -1
    ensures var g := u.session.live; var id := HitTest.NodeAt(g.nodes, g.nodeCount, mx, my);
      var (r, order) := Click(u, weighted, directed, mx, my, now, reply);
      && order[0] == id && Traversal.Distinct(order)
      && (forall v :: v in order <==> 0 <= v < g.nodeCount && Traversal.Reachable(g.adj, id, v))
      && (forall v :: 0 <= v < g.nodeCount ==> (r.session.live.nodes[v].visited <==> v in order))
  {
    var g := u.session.live;
    Traversal.BfsVisitsReachable(g.adj, HitTest.NodeAt(g.nodes, g.nodeCount, mx, my));
  }

  /** The same for a DFS click. */
  lemma DfsClickVisitsReachable(u: UiState, weighted: bool, directed: bool, mx: int, my: int, now: int, reply: int)
    requires WeightPrompt.IsAnswer(reply)
    requires Inv(u) && 0 <= now < TICKS && u.mode == DfsMode
    requires var g := u.session.live; HitTest.NodeAt(g.nodes, g.nodeCount, mx, my) != -1
    ensures var g := u.session.live; var id := HitTest.NodeAt(g.nodes, g.nodeCount, mx, my);
      var (r, order) := Click(u, weighted, directed, mx, my, now, reply);
      && order[0] == id && Traversal.Distinct(order)
      && (forall v :: v in order <==> 0 <= v < g.nodeCount && Traversal.Reachable(g.adj, id, v))
      && (forall v :: 0 <= v < g.nodeCount ==> (r.session.live.nodes[v].visited <==> v in order))
  {
    var g := u.session.live;
    Traversal.DfsVisitsReachable(g.adj, HitTest.NodeAt(g.nodes, g.nodeCount, mx, my));
  }

  // ---------------------------------------------------------------------
  // Undo keeps a stale selection

  /** The state reached from start-up by two Add Node clicks, at (100, 100)
      and (200, 100), the Add Edge button, and a click on the second node:
      node 1 is selected, and the undo stack holds the start-up snapshot, the
      empty graph saved by the first add and the one-node graph saved by the
      second. */
  function TwoNodesSelected(): (u: UiState)
    ensures Inv(u) && u.mode == AddEdgeMode && u.sel == 1
    ensures u.session.live.nodeCount == 2 && |u.session.undo| == 3
    ensures u.session.undo[2] == AddNode(Empty, 100, 100)
  {
    InitialInv();
    AddNodeInv(Initial, 100, 100);
    var one := ClickAddNode(Initial, 100, 100);
    AddNodeInv(one, 200, 100);
    var two := ClickAddNode(one, 200, 100);
    PressInv(two, 1);
    var edgeMode := Press(two, 1);
    AddEdgeInv(edgeMode, false, false, 200, 100, 1000, WeightPrompt.CANCELLED);
    ClickAddEdge(edgeMode, false, false, 200, 100, 1000, WeightPrompt.CANCELLED)
  }

  /** As written, undo in that state brings back the one-node graph but keeps
      node 1 selected: the invariant breaks, and the next click on node 0
      would push an arc onto adj[1] of a one-row adjacency list. The
      corrected key drops the selection. */
  lemma UndoKeepsStaleSelection()
    ensures var v := KeyAsWritten(TwoNodesSelected(), 'u').0;
      && v.sel == 1 && v.mode == AddEdgeMode
      && v.session.live.nodeCount == 1 && |v.session.live.adj| == 1
      && !Inv(v)
    ensures Key(TwoNodesSelected(), 'u').0.sel == -1
  {
    EmptyWf();
    assert Wf(AddNode(Empty, 100, 100));
  }
}
