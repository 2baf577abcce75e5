/**
 * The editor's global state (main.cpp:44-69) as one object whose methods
 * change it in place the way `main` and its helpers do: saveSnapshot,
 * applySnapshot, doUndo, doRedo, resetVisited, BFS_visual, DFS_visual, the
 * toolbar, the keys and the mouse click in each mode. Each method is proved
 * to leave the state that the matching function of module Interaction
 * describes, and so to keep Interaction.Inv.
 */
module Editor {
  import opened GraphModel
  import History
  import HitTest
  import Traversal
  import WeightPrompt
  import opened Interaction

  /** A row after the first inner loop of Delete Node: arcs into id carry
      the target -1. */
  function Marks(row: seq<Arc>, id: int): (a: seq<Arc>)
    ensures |a| == |row|
    ensures forall m :: 0 <= m < |row| ==> a[m].weight == row[m].weight
    ensures forall m :: 0 <= m < |row| && row[m].to != id ==> a[m] == row[m]
    ensures forall m :: 0 <= m < |row| && row[m].to == id ==> a[m].to == -1
  {
    seq(|row|, m requires 0 <= m < |row| => if row[m].to == id then row[m].(to := -1) else row[m])
  }

  /** The first inner loop of Delete Node (main.cpp:533-535). */
  method MarkRow(row: seq<Arc>, id: int) returns (a: seq<Arc>)
    ensures a == Marks(row, id)
  {
    a := row;
    for j := 0 to |a|
      invariant |a| == |row|
      invariant forall m :: 0 <= m < |a| ==>
        a[m] == if m < j && row[m].to == id then row[m].(to := -1) else row[m]
    {
      if a[j].to == id {
        a := a[j := a[j].(to := -1)];
      }
    }
  }

  /** The second inner loop of Delete Node (main.cpp:536-540): erases the
      marked arcs and moves larger targets down by one, in place. */
  method CompactRow(marked: seq<Arc>, ghost row: seq<Arc>, id: int) returns (r: seq<Arc>)
    requires id >= 0 && forall k :: 0 <= k < |row| ==> row[k].to >= 0
    requires marked == Marks(row, id)
    ensures r == Renumbered(row, id)
  {
    var a := marked;
    ghost var p := 0;
    var j := 0;
    while j < |a|
      invariant 0 <= j <= |a| && 0 <= p <= |row| && |a| - j == |row| - p
      invariant a[j..] == marked[p..]
      invariant a[..j] + Renumbered(row[p..], id) == Renumbered(row, id)
      decreases |a| - j
    {
      RenumberedStep(row, p, id);
      assert a[j] == marked[p] by {
        assert a[j..][0] == marked[p..][0];
      }
      ghost var done := a[..j];
      if a[j].to == -1 {
        a := a[..j] + a[j + 1..];
        assert a[..j] == done && a[j..] == marked[p + 1..];
      } else {
        if a[j].to > id {
          a := a[j := a[j].(to := a[j].to - 1)];
        }
        assert a[..j + 1] == done + [a[j]] && a[j + 1..] == marked[p + 1..];
        KeepStep(done, a[j], Renumbered(row[p + 1..], id), Renumbered(row[p..], id), Renumbered(row, id));
        j := j + 1;
      }
      p := p + 1;
    }
    r := a;
  }

  /** Both inner loops of Delete Node over one row (main.cpp:532-541). */
  method RenumberRow(row: seq<Arc>, id: int) returns (r: seq<Arc>)
    requires id >= 0 && forall k :: 0 <= k < |row| ==> row[k].to >= 0
    ensures r == Renumbered(row, id)
  {
    var a := MarkRow(row, id);
    r := CompactRow(a, row, id);
  }

  /** The outer loop of Delete Node over the rows left after the erasure
      (main.cpp:531-542). */
  method RenumberRows(rows: seq<seq<Arc>>, id: int) returns (r: seq<seq<Arc>>)
    requires id >= 0 && forall u, k :: 0 <= u < |rows| && 0 <= k < |rows[u]| ==> rows[u][k].to >= 0
    ensures |r| == |rows|
    ensures forall u :: 0 <= u < |rows| ==> r[u] == Renumbered(rows[u], id)
  {
    r := rows;
    for i := 0 to |rows|
      invariant |r| == |rows|
      invariant forall m :: 0 <= m < |rows| ==> r[m] == if m < i then Renumbered(rows[m], id) else rows[m]
    {
      var row := RenumberRow(r[i], id);
      r := r[i := row];
    }
  }

  /** Renumbering a suffix of a row takes its first arc, then the rest. */
  lemma RenumberedStep(row: seq<Arc>, p: int, id: int)
    requires 0 <= p < |row|
    ensures Renumbered(row[p..], id)
      == (if row[p].to == id then [] else [row[p].(to := Shift(row[p].to, id))]) + Renumbered(row[p + 1..], id)
  {
    assert row[p..][1..] == row[p + 1..];
  }

  lemma KeepStep(done: seq<Arc>, x: Arc, rest: seq<Arc>, suffix: seq<Arc>, total: seq<Arc>)
    requires done + suffix == total && suffix == [x] + rest
    ensures (done + [x]) + rest == total
  {
  }

  class Editor {
    var nodes: seq<Node>
    var adj: seq<seq<Arc>>
    var nodeCount: int
    var undoStack: seq<Graph>
    var redoStack: seq<Graph>
    var mode: Mode
    var selNode: int
    var lastClickTime: int
    var lastClickNode: int
    /** The answers to the start-up questions (main.cpp:413-418). */
    const weighted: bool
    const directed: bool

    /** What a snapshot copies: the live graph. */
    function Live(): Graph
      reads this
    {
      Graph(nodes, adj, nodeCount)
    }

    function State(): UiState
      reads this
    {
      UiState(History.Session(Live(), undoStack, redoStack), mode, selNode, lastClickTime, lastClickNode)
    }

    predicate Valid()
      reads this
    {
      Inv(State())
    }

    /** Start-up (main.cpp:421-424): an empty graph, the empty graph as the
        base snapshot, Add Node mode, nothing selected. */
    constructor(weighted: bool, directed: bool)
      ensures State() == Initial && Valid()
      ensures this.weighted == weighted && this.directed == directed
    {
      this.weighted := weighted;
      this.directed := directed;
      nodes := [];
      adj := [];
      nodeCount := 0;
      mode := AddNodeMode;
      selNode := -1;
      undoStack := [Graph([], [], 0)];
      redoStack := [];
      lastClickTime := 0;
      lastClickNode := -1;
      new;
      InitialInv();
    }

    /** saveSnapshot (main.cpp:76-84). */
    method SaveSnapshot()
      modifies this
      ensures State() == old(State()).(session := History.Save(old(State()).session))
    {
      undoStack := undoStack + [Graph(nodes, adj, nodeCount)];
      if |undoStack| > History.MAX_UNDO {
        undoStack := undoStack[1..];
      }
      redoStack := [];
    }

    /** applySnapshot (main.cpp:87-91). */
    method ApplySnapshot(s: Graph)
      modifies this
      ensures State() == old(State()).(session := old(State()).session.(live := s))
    {
      nodes := s.nodes;
      adj := s.adj;
      nodeCount := s.nodeCount;
    }

    /** doUndo (main.cpp:332-338). */
    method DoUndo()
      modifies this
      ensures State() == old(State()).(session := History.Undo(old(State()).session))
    {
      if |undoStack| == 0 {
        return;
      }
      redoStack := redoStack + [Graph(nodes, adj, nodeCount)];
      var s := undoStack[|undoStack| - 1];
      undoStack := undoStack[..|undoStack| - 1];
      ApplySnapshot(s);
    }

    /** doRedo (main.cpp:340-346). */
    method DoRedo()
      modifies this
      ensures State() == old(State()).(session := History.Redo(old(State()).session))
    {
      if |redoStack| == 0 {
        return;
      }
      undoStack := undoStack + [Graph(nodes, adj, nodeCount)];
      var s := redoStack[|redoStack| - 1];
      redoStack := redoStack[..|redoStack| - 1];
      ApplySnapshot(s);
    }

    /** A toolbar button (main.cpp:460-469); after Undo or Redo a selection
        past the end of the restored graph is dropped. */
    method PressButton(b: int)
      requires Valid() && 0 <= b < 8
      modifies this
      ensures State() == Press(old(State()), b) && Valid()
    {
      PressInv(State(), b);
      if b == 0 {
        mode := AddNodeMode;
        selNode := -1;
      } else if b == 1 {
        mode := AddEdgeMode;
        selNode := -1;
      } else if b == 2 {
        mode := BfsMode;
        selNode := -1;
      } else if b == 3 {
        mode := DfsMode;
        selNode := -1;
      } else if b == 4 {
        DoUndo();
        DropStaleSelection();
      } else if b == 5 {
        DoRedo();
        DropStaleSelection();
      } else if b == 6 {
        mode := SelfLoopMode;
        selNode := -1;
      } else {
        SaveSnapshot();
        nodes := [];
        adj := [];
        nodeCount := 0;
        selNode := -1;
      }
    }

    /** A key (main.cpp:431-436); after undo or redo a selection past the end
        of the restored graph is dropped. The result says whether ESC ended
        the session. */
    method Key(ch: char) returns (quit: bool)
      requires Valid()
      modifies this
      ensures (State(), quit) == Interaction.Key(old(State()), ch) && Valid()
    {
      KeyInv(State(), ch);
      quit := false;
      if ch == 27 as char {
        quit := true;
      } else if ch == 'u' || ch == 'U' {
        DoUndo();
        DropStaleSelection();
      } else if ch == 'r' || ch == 'R' {
        DoRedo();
        DropStaleSelection();
      }
    }

    /** Drops the selection when it no longer names a node. */
    method DropStaleSelection()
      modifies this
      ensures State() == DropStale(old(State()))
    {
      if selNode >= nodeCount {
        selNode := -1;
      }
    }

    /** resetVisited (main.cpp:256): clears the flags of nodes 0..nodeCount-1. */
    method ResetVisited()
      requires 0 <= nodeCount <= |nodes|
      modifies this
      ensures |nodes| == |old(nodes)|
      ensures forall i :: 0 <= i < |nodes| ==>
        nodes[i] == old(nodes[i]).(visited := old(nodes[i].visited) && i >= nodeCount)
      ensures State() == old(State()).(session := old(State()).session.(live := old(Live()).(nodes := nodes)))
    {
      var ns := nodes;
      for i := 0 to nodeCount
        invariant |ns| == |nodes|
        invariant forall m :: 0 <= m < |ns| ==> ns[m] == nodes[m].(visited := nodes[m].visited && m >= i)
      {
        ns := ns[i := ns[i].(visited := false)];
      }
      nodes := ns;
    }

    /** Delete Node (main.cpp:529-543): the node and its row are erased and
        every remaining row is renumbered. */
    method EraseNode(id: int)
      requires Wf(Live()) && 0 <= id < nodeCount
      modifies this
      ensures State() == old(State()).(session := old(State()).session.(live := RemoveNode(old(Live()), id)))
    {
      ghost var g := Live();
      var ns := nodes[..id] + nodes[id + 1..];
      var rows := RenumberRows(adj[..id] + adj[id + 1..], id);
      assert rows == RemoveNode(g, id).adj;
      nodes, adj, nodeCount := ns, rows, nodeCount - 1;
    }

    /** Add Node mode (main.cpp:473-480): below the toolbar, a snapshot is
        saved and a node labelled with the count is appended. */
    method ClickAddNode(mx: int, my: int)
      requires Valid()
      modifies this
      ensures State() == Interaction.ClickAddNode(old(State()), mx, my)
    {
      if my > UI_H + 10 {
        SaveSnapshot();
        nodes := nodes + [Node(mx, my, Digits.IntToStr(nodeCount), false)];
        adj := Resize(adj, |nodes|);
        nodeCount := nodeCount + 1;
      }
    }

    /** Add Edge mode (main.cpp:481-505); `now` is the tick count and `reply`
        what the weight prompt returns. */
    method ClickAddEdge(mx: int, my: int, now: int, reply: int)
      requires WeightPrompt.IsAnswer(reply)
      requires Valid() && 0 <= now < TICKS
      modifies this
      ensures State() == Interaction.ClickAddEdge(old(State()), weighted, directed, mx, my, now, reply)
    {
      var id := HitTest.FindNodeAt(nodes, nodeCount, mx, my);
      if id == -1 {
        return;
      }
      if lastClickNode == id && (now - lastClickTime) % TICKS <= DOUBLE_CLICK_MS {
        lastClickNode := -1;
        lastClickTime := 0;
        selNode := -1;
        return;
      }
      if selNode == -1 {
        selNode, lastClickNode, lastClickTime := id, id, now;
      } else if selNode != id {
        SaveSnapshot();
        var w := 1;
        if weighted {
          if reply < 0 {
            selNode := -1;
            return;
          }
          w := reply;
        }
        adj := adj[selNode := adj[selNode] + [Arc(id, w)]];
        if !directed {
          adj := adj[id := adj[id] + [Arc(selNode, w)]];
        }
        selNode := -1;
      }
    }

    /** Self Loop mode (main.cpp:506-523): the scan for an existing loop, then
        a snapshot, the prompt and the new arc. */
    method ClickSelfLoop(mx: int, my: int, reply: int)
      requires WeightPrompt.IsAnswer(reply)
      requires Valid()
      modifies this
      ensures State() == Interaction.ClickSelfLoop(old(State()), weighted, mx, my, reply)
    {
      var id := HitTest.FindNodeAt(nodes, nodeCount, mx, my);
      if id == -1 {
        return;
      }
      var found := false;
      for k := 0 to |adj[id]|
        invariant found <==> exists j :: 0 <= j < k && adj[id][j].to == id
      {
        if adj[id][k].to == id {
          found := true;
        }
      }
      if !found {
        SaveSnapshot();
        var w := 1;
        if weighted {
          if reply < 0 {
            return;
          }
          w := reply;
        }
        adj := adj[id := adj[id] + [Arc(id, w)]];
      }
    }

    /** Delete Node mode (main.cpp:524-545). */
    method ClickDeleteNode(mx: int, my: int)
      requires Valid()
      modifies this
      ensures State() == Interaction.ClickDeleteNode(old(State()), mx, my)
    {
      var id := HitTest.FindNodeAt(nodes, nodeCount, mx, my);
      if id != -1 {
        SaveSnapshot();
        EraseNode(id);
      }
    }

    /** Delete Edge mode (main.cpp:546-553). */
    method ClickDeleteEdge(mx: int, my: int)
      requires Valid()
      modifies this
      ensures State() == Interaction.ClickDeleteEdge(old(State()), directed, mx, my)
    {
      LiveIndexed(State());
      var eu, ek := HitTest.FindEdgeNear(nodes, adj, directed, mx, my);
      if eu != -1 {
        SaveSnapshot();
        adj := adj[eu := adj[eu][..ek] + adj[eu][ek + 1..]];
      }
    }

    /** BFS and DFS modes (main.cpp:554-561): the traversal from the node
        under the point, if any. */
    method ClickTraverse(bfs: bool, mx: int, my: int) returns (order: seq<int>)
      requires Valid()
      modifies this
      ensures (State(), order) == Interaction.ClickTraverse(old(State()), bfs, mx, my)
    {
      var id := HitTest.FindNodeAt(nodes, nodeCount, mx, my);
      order := [];
      if id != -1 {
        if bfs {
          order := BfsVisual(id);
        } else {
          order := DfsVisual(id);
        }
      }
    }

    /** A click on the canvas in the current mode (main.cpp:472-562). */
    method Click(mx: int, my: int, now: int, reply: int) returns (visits: seq<int>)
      requires WeightPrompt.IsAnswer(reply)
      requires Valid() && 0 <= now < TICKS
      modifies this
      ensures (State(), visits) == Interaction.Click(old(State()), weighted, directed, mx, my, now, reply)
      ensures Valid()
    {
      ClickInv(State(), weighted, directed, mx, my, now, reply);
      visits := [];
      match mode
      case AddNodeMode => ClickAddNode(mx, my);
      case AddEdgeMode => ClickAddEdge(mx, my, now, reply);
      case SelfLoopMode => ClickSelfLoop(mx, my, reply);
      case DeleteNodeMode => ClickDeleteNode(mx, my);
      case DeleteEdgeMode => ClickDeleteEdge(mx, my);
      case BfsMode => visits := ClickTraverse(true, mx, my);
      case DfsMode => visits := ClickTraverse(false, mx, my);
      case NoMode =>
    }

    /** DFS_visual (main.cpp:277-290): nothing for a start out of range;
        otherwise the flags are cleared and the nodes are emitted in the
        order they are first popped, each marked when it is emitted. */
    method DfsVisual(start: int) returns (order: seq<int>)
      requires Valid()
      modifies this
      ensures State() == old(State()).(session := old(State()).session.(live := old(Live()).(nodes := nodes)))
      ensures !(0 <= start < nodeCount) ==> order == [] && nodes == old(nodes)
      ensures 0 <= start < nodeCount ==> order == Traversal.Dfs(adj, start) && nodes == Marked(old(nodes), order)
    {
      if start < 0 || start >= nodeCount {
        return [];
      }
      ResetVisited();
      var ns;
      ns, order := DfsMarking(adj, nodes, start);
      assert ns == Marked(old(nodes), order);
      nodes := ns;
    }

    /** BFS_visual (main.cpp:263-275): nothing for a start out of range;
        otherwise the flags are cleared, and the nodes are emitted in the
        order they leave the queue, each marked when it is discovered. */
    method BfsVisual(start: int) returns (order: seq<int>)
      requires Valid()
      modifies this
      ensures State() == old(State()).(session := old(State()).session.(live := old(Live()).(nodes := nodes)))
      ensures !(0 <= start < nodeCount) ==> order == [] && nodes == old(nodes)
      ensures 0 <= start < nodeCount ==> order == Traversal.Bfs(adj, start) && nodes == Marked(old(nodes), order)
    {
      if start < 0 || start >= nodeCount {
        return [];
      }
      ResetVisited();
      var ns;
      ns, order := BfsMarking(adj, nodes, start);
      assert ns == Marked(old(nodes), order);
      nodes := ns;
    }
  }

  /** The inner loop of BFS_visual (main.cpp:270-273) over the row of the
      dequeued node: unvisited targets are marked and enqueued in row order. */
  method EnqueueFresh(row: seq<Arc>, ns: seq<Node>, queue: seq<int>, ghost vis: set<int>)
    returns (ns': seq<Node>, queue': seq<int>)
    requires forall k :: 0 <= k < |row| ==> 0 <= row[k].to < |ns|
    requires forall i :: 0 <= i < |ns| ==> (ns[i].visited <==> i in vis)
    ensures |ns'| == |ns|
    ensures forall i :: 0 <= i < |ns| ==> ns'[i] == ns[i].(visited := i in vis + Traversal.Targets(row))
    ensures queue' == queue + Traversal.Fresh(row, vis)
  {
    ns', queue' := ns, queue;
    ghost var seen := vis;
    for k := 0 to |row|
      invariant |ns'| == |ns|
      invariant forall i :: 0 <= i < |ns| ==> ns'[i] == ns[i].(visited := i in seen)
      invariant seen + Traversal.Targets(row[k..]) == vis + Traversal.Targets(row)
      invariant queue' + Traversal.Fresh(row[k..], seen) == queue + Traversal.Fresh(row, vis)
    {
      assert row[k..][1..] == row[k + 1..];
      var v := row[k].to;
      if !ns'[v].visited {
        ns' := ns'[v := ns'[v].(visited := true)];
        queue' := queue' + [v];
        seen := seen + {v};
      }
    }
    assert row[|row|..] == [];
  }

  /** The queue loop of BFS_visual (main.cpp:265-274) on flags that were
      cleared: the dequeue order and the flags it leaves. */
  method BfsMarking(adj: seq<seq<Arc>>, ns: seq<Node>, start: int) returns (marked: seq<Node>, order: seq<int>)
    requires Traversal.Closed(adj) && |ns| == |adj| && 0 <= start < |adj|
    requires forall i :: 0 <= i < |ns| ==> !ns[i].visited
    ensures order == Traversal.Bfs(adj, start)
    ensures marked == Marked(ns, order)
  {
    marked := ns[start := ns[start].(visited := true)];
    var queue := [start];
    ghost var vis: set<int> := {start};
    order := [];
    while queue != []
      invariant |marked| == |adj|
      invariant forall i :: 0 <= i < |ns| ==> marked[i] == ns[i].(visited := i in vis)
      invariant Traversal.SetBelow(vis, |adj|) && Traversal.SeqBelow(queue, |adj|)
      invariant forall x :: x in vis <==> x in order || x in queue
      invariant order + Traversal.BfsFrom(adj, queue, vis) == Traversal.Bfs(adj, start)
      decreases |adj| - |vis|, |queue|
    {
      var u := queue[0];
      BfsDequeue(adj, queue, vis, order);
      ghost var vis' := vis + Traversal.Targets(adj[u]);
      var order' := order + [u];
      marked, queue := EnqueueFresh(adj[u], marked, queue[1..], vis);
      order := order';
      vis := vis';
    }
  }

  /** One turn of the queue loop, seen on the specification: the visit
      order, the bounds and the visited set carry over to the next queue. */
  lemma BfsDequeue(adj: seq<seq<Arc>>, queue: seq<int>, vis: set<int>, order: seq<int>)
    requires Traversal.Closed(adj) && Traversal.SetBelow(vis, |adj|) && Traversal.SeqBelow(queue, |adj|) && queue != []
    requires forall x :: x in vis <==> x in order || x in queue
    ensures var u := queue[0];
      var q', vis' := queue[1..] + Traversal.Fresh(adj[u], vis), vis + Traversal.Targets(adj[u]);
      && Traversal.SetBelow(vis', |adj|) && Traversal.SeqBelow(q', |adj|)
      && 0 <= |adj| - |vis'| <= |adj| - |vis|
      && (|vis'| == |vis| ==> |q'| < |queue|)
      && (order + [u]) + Traversal.BfsFrom(adj, q', vis') == order + Traversal.BfsFrom(adj, queue, vis)
      && forall x :: x in vis' <==> x in order + [u] || x in q'
  {
    var u := queue[0];
    var q', vis' := queue[1..] + Traversal.Fresh(adj[u], vis), vis + Traversal.Targets(adj[u]);
    Traversal.DequeueInRange(adj, queue, vis);
    Traversal.BfsStep(adj, queue, vis);
    Traversal.FreshFacts(adj[u], vis);
    assert Traversal.BfsFrom(adj, queue, vis) == [u] + Traversal.BfsFrom(adj, q', vis');
    SnocAssoc(order, u, Traversal.BfsFrom(adj, q', vis'));
  }

  /** One turn of the stack loop, seen on the specification: popping a
      visited node leaves the rest of the run, and visiting an unvisited one
      emits it and continues from the stack with its row pushed. */
  lemma DfsPop(adj: seq<seq<Arc>>, stack: seq<int>, vis: set<int>, order: seq<int>)
    requires Traversal.Closed(adj) && Traversal.SetBelow(vis, |adj|) && Traversal.SeqBelow(stack, |adj|) && stack != []
    requires forall x :: x in vis <==> x in order
    ensures var u, rest := stack[|stack| - 1], stack[..|stack| - 1];
      && Traversal.SeqBelow(rest, |adj|) && 0 <= u < |adj|
      && (u in vis ==> Traversal.DfsRun(adj, rest, vis) == Traversal.DfsRun(adj, stack, vis))
      && (u !in vis ==>
            var pushed := Traversal.PushUnvisited(adj[u], vis + {u}, rest);
            && Traversal.SetBelow(vis + {u}, |adj|) && Traversal.SeqBelow(pushed, |adj|)
            && |vis| < |vis + {u}| <= |adj|
            && (order + [u]) + Traversal.DfsRun(adj, pushed, vis + {u}).0 == order + Traversal.DfsRun(adj, stack, vis).0
            && forall x :: x in vis + {u} <==> x in order + [u])
  {
    var u, rest := stack[|stack| - 1], stack[..|stack| - 1];
    SplitTop(stack);
    if u in vis {
      Traversal.DfsSkipTop(adj, rest, u, vis);
    } else {
      Traversal.DfsVisitTop(adj, rest, u, vis);
      SnocAssoc(order, u, Traversal.DfsRun(adj, Traversal.PushUnvisited(adj[u], vis + {u}, rest), vis + {u}).0);
    }
  }

  /** Setting the flag of u extends the marked set by u. */
  lemma MarkOne(ns: seq<Node>, marked: seq<Node>, vis: set<int>, u: int)
    requires |marked| == |ns| && 0 <= u < |ns|
    requires forall i :: 0 <= i < |ns| ==> marked[i] == ns[i].(visited := i in vis)
    ensures var m := marked[u := marked[u].(visited := true)];
      forall i :: 0 <= i < |ns| ==> m[i] == ns[i].(visited := i in vis + {u})
  {
  }

  lemma SplitTop(s: seq<int>)
    requires s != []
    ensures s == s[..|s| - 1] + [s[|s| - 1]]
  {
  }

  lemma SnocAssoc(a: seq<int>, u: int, b: seq<int>)
    ensures (a + [u]) + b == a + ([u] + b)
  {
  }

  /** The push loop of DFS_visual (main.cpp:285-288): the row is walked from
      its last arc to its first and every unvisited target is pushed. */
  method PushRow(row: seq<Arc>, ns: seq<Node>, stack: seq<int>, ghost vis: set<int>) returns (stack': seq<int>)
    requires forall k :: 0 <= k < |row| ==> 0 <= row[k].to < |ns|
    requires forall i :: 0 <= i < |ns| ==> (ns[i].visited <==> i in vis)
    ensures stack' == Traversal.PushUnvisited(row, vis, stack)
  {
    stack' := stack;
    var i := |row|;
    while i > 0
      invariant 0 <= i <= |row|
      invariant stack' == Traversal.PushUnvisited(row[i..], vis, stack)
    {
      i := i - 1;
      assert row[i..][1..] == row[i + 1..];
      var v := row[i].to;
      if !ns[v].visited {
        stack' := stack' + [v];
      }
    }
  }

  /** The stack loop of DFS_visual (main.cpp:280-289) on flags that were
      cleared: a popped node already visited is skipped, otherwise it is
      marked, emitted, and its unvisited targets are pushed. */
  method DfsMarking(adj: seq<seq<Arc>>, ns: seq<Node>, start: int) returns (marked: seq<Node>, order: seq<int>)
    requires Traversal.Closed(adj) && |ns| == |adj| && 0 <= start < |adj|
    requires forall i :: 0 <= i < |ns| ==> !ns[i].visited
    ensures order == Traversal.Dfs(adj, start)
    ensures marked == Marked(ns, order)
  {
    marked := ns;
    var stack := [start];
    ghost var vis: set<int> := {};
    ghost var target := Traversal.Dfs(adj, start);
    order := [];
    while stack != []
      invariant |marked| == |adj|
      invariant forall i :: 0 <= i < |ns| ==> marked[i] == ns[i].(visited := i in vis)
      invariant Traversal.SetBelow(vis, |adj|) && Traversal.SeqBelow(stack, |adj|)
      invariant forall x :: x in vis <==> x in order
      invariant order + Traversal.DfsRun(adj, stack, vis).0 == target
      decreases |adj| - |vis|, |stack|
    {
      var u := stack[|stack| - 1];
      DfsPop(adj, stack, vis, order);
      stack := stack[..|stack| - 1];
      if marked[u].visited {
        continue;
      }
      MarkOne(ns, marked, vis, u);
      marked := marked[u := marked[u].(visited := true)];
      vis := vis + {u};
      order := order + [u];
      stack := PushRow(adj[u], marked, stack, vis);
    }
  }
}
