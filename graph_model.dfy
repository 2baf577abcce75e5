/**
 * The editor's graph: the node list, the adjacency list indexed in lockstep
 * with it, and the node count (main.cpp:25-29, 44-46), together with the
 * structural edits the editor performs on them, stated as functions of the
 * graph before the edit.
 */
module GraphModel {
  import opened Digits

  const NODE_RADIUS := 22

  /** A node: its centre on the canvas, its label (`caption`; `label` is a
      Dafny keyword) and the traversal flag. */
  datatype Node = Node(x: int, y: int, caption: string, visited: bool)

  /** One arc of an adjacency row: the target node index and the weight. */
  datatype Arc = Arc(to: int, weight: int)

  /** The state a snapshot copies: nodes, adjacency rows and node count. */
  datatype Graph = Graph(nodes: seq<Node>, adj: seq<seq<Arc>>, nodeCount: int)

  const Empty := Graph([], [], 0)

  /** Every arc of every row points at an index in 0..n-1. */
  predicate TargetsBelow(adj: seq<seq<Arc>>, n: int) {
    forall u, k :: 0 <= u < |adj| && 0 <= k < |adj[u]| ==> 0 <= adj[u][k].to < n
  }

  /** The number of arcs of a row that point back at its own node u. */
  function SelfLoops(row: seq<Arc>, u: int): nat {
    if row == [] then 0
    else (if row[0].to == u then 1 else 0) + SelfLoops(row[1..], u)
  }

  /** The test the Self Loop mode makes before adding one (main.cpp:510-511). */
  predicate HasSelfLoop(row: seq<Arc>, u: int) {
    exists k :: 0 <= k < |row| && row[k].to == u
  }

  lemma {:induction false} HasSelfLoopCount(row: seq<Arc>, u: int)
    ensures HasSelfLoop(row, u) <==> SelfLoops(row, u) > 0
  {
    if row != [] {
      HasSelfLoopCount(row[1..], u);
      if HasSelfLoop(row[1..], u) {
        var k :| 0 <= k < |row[1..]| && row[1..][k].to == u;
        assert row[k + 1].to == u;
      }
      if HasSelfLoop(row, u) && row[0].to != u {
        var k :| 0 <= k < |row| && row[k].to == u;
        assert row[1..][k - 1].to == u;
      }
    }
  }

  /** The invariants every edit keeps: rows and nodes in lockstep with the
      count, no arc pointing outside the graph, at most one self-loop per node. */
  predicate Wf(g: Graph) {
    && |g.nodes| == |g.adj| == g.nodeCount
    && TargetsBelow(g.adj, g.nodeCount)
    && forall u :: 0 <= u < |g.adj| ==> SelfLoops(g.adj[u], u) <= 1
  }

  lemma EmptyWf()
    ensures Wf(Empty)
  {
  }

  /** `vector::resize` on the adjacency list: truncate, or pad with empty rows. */
  function Resize(adj: seq<seq<Arc>>, n: nat): (r: seq<seq<Arc>>)
    ensures |r| == n
    ensures forall u :: 0 <= u < n ==> r[u] == if u < |adj| then adj[u] else []
  {
    if |adj| >= n then adj[..n] else adj + seq(n - |adj|, _ => [])
  }

  /** Add Node (main.cpp:474-478): a node labelled with the current count is
      appended and the adjacency list is resized to match the node list. */
  function AddNode(g: Graph, x: int, y: int): (r: Graph)
    ensures Wf(g) ==> Wf(r)
    ensures r.nodeCount == g.nodeCount + 1 && |r.nodes| == |g.nodes| + 1
    ensures r.nodes[..|g.nodes|] == g.nodes
    ensures r.nodes[|g.nodes|] == Node(x, y, IntToStr(g.nodeCount), false)
    ensures Wf(g) ==> r.adj == g.adj + [[]]
  {
    var nodes := g.nodes + [Node(x, y, IntToStr(g.nodeCount), false)];
    Graph(nodes, Resize(g.adj, |nodes|), g.nodeCount + 1)
  }

  /** Add Edge (main.cpp:501-502): the arc u->v, and in an undirected graph
      also the reciprocal arc v->u, each with weight w. */
  function AddEdge(g: Graph, u: int, v: int, w: int, directed: bool): (r: Graph)
    requires 0 <= u < |g.adj| && 0 <= v < |g.adj|
    ensures r.nodes == g.nodes && r.nodeCount == g.nodeCount && |r.adj| == |g.adj|
    ensures u != v ==> r.adj[u] == g.adj[u] + [Arc(v, w)]
    ensures u != v ==> r.adj[v] == g.adj[v] + (if directed then [] else [Arc(u, w)])
    ensures forall x :: 0 <= x < |g.adj| && x != u && x != v ==> r.adj[x] == g.adj[x]
  {
    var adj := g.adj[u := g.adj[u] + [Arc(v, w)]];
    g.(adj := if directed then adj else adj[v := adj[v] + [Arc(u, w)]])
  }

  /** Self Loop (main.cpp:520): the arc u->u with weight w. */
  function AddSelfLoop(g: Graph, u: int, w: int): (r: Graph)
    requires 0 <= u < |g.adj|
    ensures r.nodes == g.nodes && r.nodeCount == g.nodeCount && |r.adj| == |g.adj|
    ensures r.adj[u] == g.adj[u] + [Arc(u, w)]
    ensures forall x :: 0 <= x < |g.adj| && x != u ==> r.adj[x] == g.adj[x]
  {
    g.(adj := g.adj[u := g.adj[u] + [Arc(u, w)]])
  }

  lemma {:induction false} SelfLoopsAppend(row: seq<Arc>, a: Arc, u: int)
    ensures SelfLoops(row + [a], u) == SelfLoops(row, u) + (if a.to == u then 1 else 0)
  {
    if row != [] {
      assert (row + [a])[1..] == row[1..] + [a];
      SelfLoopsAppend(row[1..], a, u);
    }
  }

  /** Adding an edge between two different nodes keeps the graph well formed. */
  lemma AddEdgeWf(g: Graph, u: int, v: int, w: int, directed: bool)
    requires Wf(g) && 0 <= u < |g.adj| && 0 <= v < |g.adj| && u != v
    ensures Wf(AddEdge(g, u, v, w, directed))
  {
    var r := AddEdge(g, u, v, w, directed);
    forall x | 0 <= x < |r.adj|
      ensures forall k :: 0 <= k < |r.adj[x]| ==> 0 <= r.adj[x][k].to < r.nodeCount
      ensures SelfLoops(r.adj[x], x) <= 1
    {
      if x == u {
        SelfLoopsAppend(g.adj[u], Arc(v, w), u);
      } else if x == v && !directed {
        SelfLoopsAppend(g.adj[v], Arc(u, w), v);
      }
    }
  }

  /** Adding a self-loop keeps the graph well formed exactly when the node has
      none yet, which is why the editor refuses a second one. */
  lemma AddSelfLoopWf(g: Graph, u: int, w: int)
    requires Wf(g) && 0 <= u < |g.adj|
    ensures Wf(AddSelfLoop(g, u, w)) <==> !HasSelfLoop(g.adj[u], u)
  {
    SelfLoopsAppend(g.adj[u], Arc(u, w), u);
    HasSelfLoopCount(g.adj[u], u);
    var r := AddSelfLoop(g, u, w);
    if !HasSelfLoop(g.adj[u], u) {
      assert forall x :: 0 <= x < |r.adj| ==> SelfLoops(r.adj[x], x) <= 1;
    }
  }

  /** Delete Edge (main.cpp:550): erases the k-th arc of row u and nothing else;
      in an undirected graph the reciprocal arc stays. */
  function RemoveArc(g: Graph, u: int, k: int): (r: Graph)
    requires 0 <= u < |g.adj| && 0 <= k < |g.adj[u]|
    ensures r.nodes == g.nodes && r.nodeCount == g.nodeCount && |r.adj| == |g.adj|
    ensures |r.adj[u]| == |g.adj[u]| - 1
    ensures forall j :: 0 <= j < |r.adj[u]| ==> r.adj[u][j] == g.adj[u][if j < k then j else j + 1]
    ensures forall x :: 0 <= x < |g.adj| && x != u ==> r.adj[x] == g.adj[x]
  {
    g.(adj := g.adj[u := g.adj[u][..k] + g.adj[u][k + 1..]])
  }

  lemma {:induction false} SelfLoopsSplit(a: seq<Arc>, b: seq<Arc>, u: int)
    ensures SelfLoops(a + b, u) == SelfLoops(a, u) + SelfLoops(b, u)
  {
    if a == [] {
      assert a + b == b;
    } else {
      assert (a + b)[1..] == a[1..] + b;
      SelfLoopsSplit(a[1..], b, u);
    }
  }

  lemma RemoveArcWf(g: Graph, u: int, k: int)
    requires Wf(g) && 0 <= u < |g.adj| && 0 <= k < |g.adj[u]|
    ensures Wf(RemoveArc(g, u, k))
  {
    var row := g.adj[u];
    assert row == row[..k] + [row[k]] + row[k + 1..];
    SelfLoopsSplit(row[..k] + [row[k]], row[k + 1..], u);
    SelfLoopsSplit(row[..k], [row[k]], u);
    SelfLoopsSplit(row[..k], row[k + 1..], u);
  }

  /** An index after node id is removed: larger indices move down by one. */
  function Shift(t: int, id: int): int {
    if t > id then t - 1 else t
  }

  /** One adjacency row after node id is deleted (main.cpp:532-541): arcs into
      id are dropped, larger targets move down by one, the order is kept. */
  function Renumbered(row: seq<Arc>, id: int): (r: seq<Arc>)
    ensures |r| == |row| - SelfLoops(row, id)
  {
    if row == [] then []
    else
      (if row[0].to == id then [] else [row[0].(to := Shift(row[0].to, id))])
      + Renumbered(row[1..], id)
  }

  /** Delete Node (main.cpp:529-543). */
  function RemoveNode(g: Graph, id: int): (r: Graph)
    requires 0 <= id < |g.nodes| && id < |g.adj|
    ensures |r.nodes| == |g.nodes| - 1 && |r.adj| == |g.adj| - 1 && r.nodeCount == g.nodeCount - 1
    ensures forall i :: 0 <= i < |r.nodes| ==> r.nodes[i] == g.nodes[if i < id then i else i + 1]
    ensures forall i :: 0 <= i < |r.adj| ==> r.adj[i] == Renumbered(g.adj[if i < id then i else i + 1], id)
  {
    var rows := g.adj[..id] + g.adj[id + 1..];
    Graph(g.nodes[..id] + g.nodes[id + 1..],
          seq(|rows|, i requires 0 <= i < |rows| => Renumbered(rows[i], id)),
          g.nodeCount - 1)
  }

  /** A renumbered row holds exactly the arcs of the old row that did not
      point at id, retargeted by Shift. */
  lemma {:induction false} RenumberedArcs(row: seq<Arc>, id: int, a: Arc)
    ensures a in Renumbered(row, id) <==>
      exists b :: b in row && b.to != id && a == Arc(Shift(b.to, id), b.weight)
  {
    if row != [] {
      RenumberedArcs(row[1..], id, a);
      assert forall b :: b in row <==> b == row[0] || b in row[1..];
    }
  }

  /** Renumbering keeps targets in range for the smaller graph. */
  lemma {:induction false} RenumberedInRange(row: seq<Arc>, id: int, n: int)
    requires 0 <= id < n
    requires forall k :: 0 <= k < |row| ==> 0 <= row[k].to < n
    ensures forall k :: 0 <= k < |Renumbered(row, id)| ==> 0 <= Renumbered(row, id)[k].to < n - 1
  {
    if row != [] {
      RenumberedInRange(row[1..], id, n);
    }
  }

  /** Renumbering keeps the self-loops of every surviving node: Shift is
      one-to-one away from id. */
  lemma {:induction false} RenumberedSelfLoops(row: seq<Arc>, id: int, u: int)
    requires u != id
    ensures SelfLoops(Renumbered(row, id), Shift(u, id)) == SelfLoops(row, u)
  {
    if row != [] {
      RenumberedSelfLoops(row[1..], id, u);
      var head := if row[0].to == id then [] else [row[0].(to := Shift(row[0].to, id))];
      SelfLoopsSplit(head, Renumbered(row[1..], id), Shift(u, id));
    }
  }

  /** Deleting a node keeps the graph well formed. */
  lemma RemoveNodeWf(g: Graph, id: int)
    requires Wf(g) && 0 <= id < g.nodeCount
    ensures Wf(RemoveNode(g, id))
  {
    var r := RemoveNode(g, id);
    forall i | 0 <= i < |r.adj|
      ensures forall k :: 0 <= k < |r.adj[i]| ==> 0 <= r.adj[i][k].to < r.nodeCount
      ensures SelfLoops(r.adj[i], i) <= 1
    {
      var old_i := if i < id then i else i + 1;
      assert forall k :: 0 <= k < |g.adj[old_i]| ==> 0 <= g.adj[old_i][k].to < g.nodeCount;
      RenumberedInRange(g.adj[old_i], id, g.nodeCount);
      RenumberedSelfLoops(g.adj[old_i], id, old_i);
    }
  }

  /** The example of deleting node 1 from a four-node graph that has the arc
      0->2: the arc becomes 0->1 and the graph has three nodes. */
  lemma RemoveNodeExample(ns: seq<Node>)
    requires |ns| == 4
    ensures var r := RemoveNode(Graph(ns, [[Arc(2, 1)], [], [], []], 4), 1);
      r.nodeCount == 3 && r.adj == [[Arc(1, 1)], [], []]
  {
    var r := RemoveNode(Graph(ns, [[Arc(2, 1)], [], [], []], 4), 1);
    assert Renumbered([Arc(2, 1)], 1) == [Arc(1, 1)];
    assert r.adj == [[Arc(1, 1)], [], []];
  }

  /** Labels are not renumbered: after a deletion the survivors keep their
      captions and the next node is labelled with the new count, so when the
      last node carried its own index as label, two nodes now share it. */
  lemma LabelRepeatsAfterDelete(g: Graph, id: int, x: int, y: int)
    requires Wf(g) && 0 <= id < g.nodeCount - 1
    requires g.nodes[g.nodeCount - 1].caption == IntToStr(g.nodeCount - 1)
    ensures var r := AddNode(RemoveNode(g, id), x, y);
      && r.nodeCount == g.nodeCount
      && r.nodes[g.nodeCount - 2] == g.nodes[g.nodeCount - 1]
      && r.nodes[g.nodeCount - 1].caption == r.nodes[g.nodeCount - 2].caption
  {
    var d := RemoveNode(g, id);
    assert d.nodes[g.nodeCount - 2] == g.nodes[g.nodeCount - 1];
  }
}
