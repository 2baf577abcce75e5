/**
 * The visit orders of the two traversals the editor animates, BFS_visual and
 * DFS_visual (main.cpp:263-290), as functions of the adjacency rows, and what
 * is proved about them: each run emits every node reachable from the start
 * exactly once; BFS emits them in queue order, DFS in the order of a
 * recursive preorder walk that takes the arcs of each row first to last.
 */
module Traversal {
  import opened GraphModel

  /** Rows whose arcs all point at rows of the same list. */
  predicate Closed(adj: seq<seq<Arc>>) {
    TargetsBelow(adj, |adj|)
  }

  predicate SetBelow(s: set<int>, n: int) {
    forall v :: v in s ==> 0 <= v < n
  }

  predicate SeqBelow(q: seq<int>, n: int) {
    forall i :: 0 <= i < |q| ==> 0 <= q[i] < n
  }

  function Elems(s: seq<int>): set<int> {
    set x | x in s
  }

  predicate Distinct(s: seq<int>) {
    forall i, j :: 0 <= i < j < |s| ==> s[i] != s[j]
  }

  /** The targets of the arcs of one row. */
  function Targets(row: seq<Arc>): set<int>
    decreases |row|
  {
    if row == [] then {} else {row[0].to} + Targets(row[1..])
  }

  lemma {:induction false} TargetsBelowRow(row: seq<Arc>, n: int)
    requires forall k :: 0 <= k < |row| ==> 0 <= row[k].to < n
    ensures SetBelow(Targets(row), n)
    decreases |row|
  {
    if row != [] {
      TargetsBelowRow(row[1..], n);
    }
  }

  lemma TargetsInRange(adj: seq<seq<Arc>>, u: int)
    requires Closed(adj) && 0 <= u < |adj|
    ensures SetBelow(Targets(adj[u]), |adj|)
  {
    TargetsBelowRow(adj[u], |adj|);
  }

  /** A set of node indices below n has at most n members. */
  lemma {:induction false} RangeCard(s: set<int>, n: nat)
    requires SetBelow(s, n)
    ensures |s| <= n
  {
    if n == 0 {
      var none: set<int> := {};
      assert forall v :: v in s <==> v in none;
      assert s == none;
    } else {
      RangeCard(s - {n - 1}, n - 1);
    }
  }

  // ---------------------------------------------------------------------
  // Reachability

  /** A walk along arcs: consecutive nodes are joined by an arc. */
  ghost predicate IsPath(adj: seq<seq<Arc>>, p: seq<int>) {
    && |p| >= 1
    && SeqBelow(p, |adj|)
    && forall i :: 0 <= i < |p| - 1 ==> p[i + 1] in Targets(adj[p[i]])
  }

  ghost predicate Reachable(adj: seq<seq<Arc>>, a: int, b: int) {
    exists p :: IsPath(adj, p) && p[0] == a && p[|p| - 1] == b
  }

  lemma ReachSelf(adj: seq<seq<Arc>>, a: int)
    requires 0 <= a < |adj|
    ensures Reachable(adj, a, a)
  {
    assert IsPath(adj, [a]);
  }

  lemma ReachStep(adj: seq<seq<Arc>>, a: int, u: int, v: int)
    requires Closed(adj) && Reachable(adj, a, u) && 0 <= u < |adj| && v in Targets(adj[u])
    ensures Reachable(adj, a, v)
  {
    var p :| IsPath(adj, p) && p[0] == a && p[|p| - 1] == u;
    TargetsInRange(adj, u);
    var p' := p + [v];
    forall i | 0 <= i < |p'| - 1
      ensures p'[i + 1] in Targets(adj[p'[i]])
    {
      if i < |p| - 1 {
        assert p'[i] == p[i] && p'[i + 1] == p[i + 1];
      }
    }
    assert IsPath(adj, p');
  }

  /** A set that holds a and every target of its members holds every node
      reachable from a. */
  lemma ClosedSetHoldsReachable(adj: seq<seq<Arc>>, s: set<int>, a: int, b: int)
    requires a in s && Reachable(adj, a, b)
    requires forall x :: x in s ==> 0 <= x < |adj|
    requires forall x, t :: x in s && t in Targets(adj[x]) ==> t in s
    ensures b in s
  {
    var p :| IsPath(adj, p) && p[0] == a && p[|p| - 1] == b;
    var i := 0;
    while i < |p| - 1
      invariant 0 <= i < |p| && p[i] in s
    {
      i := i + 1;
    }
  }

  // ---------------------------------------------------------------------
  // Breadth-first search

  /** The inner loop of BFS_visual over one row (main.cpp:270-273): the targets
      it marks visited and enqueues, in row order. */
  function Fresh(row: seq<Arc>, visited: set<int>): (f: seq<int>)
    ensures forall i :: 0 <= i < |f| ==> f[i] !in visited && f[i] in Targets(row)
    decreases |row|
  {
    if row == [] then []
    else
      var v := row[0].to;
      if v in visited then Fresh(row[1..], visited)
      else [v] + Fresh(row[1..], visited + {v})
  }

  /** A row enqueues each target that is not yet visited, exactly once. */
  lemma {:induction false} FreshFacts(row: seq<Arc>, visited: set<int>)
    ensures var f := Fresh(row, visited);
      && Distinct(f)
      && forall t :: t in Targets(row) && t !in visited ==> t in f
    decreases |row|
  {
    if row != [] {
      var v := row[0].to;
      if v in visited {
        FreshFacts(row[1..], visited);
      } else {
        FreshFacts(row[1..], visited + {v});
      }
    }
  }

  /** Each enqueued target is newly visited, so the visited set grows by the
      number of targets enqueued. */
  lemma {:induction false} FreshCount(row: seq<Arc>, visited: set<int>)
    ensures |visited + Targets(row)| == |visited| + |Fresh(row, visited)|
    decreases |row|
  {
    if row != [] {
      var v := row[0].to;
      if v in visited {
        FreshCount(row[1..], visited);
        assert visited + Targets(row) == visited + Targets(row[1..]);
      } else {
        FreshCount(row[1..], visited + {v});
        assert visited + Targets(row) == (visited + {v}) + Targets(row[1..]);
      }
    }
  }

  /** One dequeue keeps the queue and the visited set in range, and either
      visits a new node or shortens the queue. */
  lemma DequeueInRange(adj: seq<seq<Arc>>, q: seq<int>, vis: set<int>)
    requires Closed(adj) && SetBelow(vis, |adj|) && SeqBelow(q, |adj|) && q != []
    ensures var f := Fresh(adj[q[0]], vis);
      && SetBelow(vis + Targets(adj[q[0]]), |adj|) && SeqBelow(q[1..] + f, |adj|)
      && 0 <= |adj| - |vis + Targets(adj[q[0]])| <= |adj| - |vis|
      && (|vis + Targets(adj[q[0]])| == |vis| ==> |q[1..] + f| < |q|)
  {
    var f := Fresh(adj[q[0]], vis);
    TargetsInRange(adj, q[0]);
    FreshCount(adj[q[0]], vis);
    RangeCard(vis + Targets(adj[q[0]]), |adj|);
  }

  /** The queue loop of BFS_visual (main.cpp:267-274), from a given queue and
      set of visited nodes: the nodes in the order they are dequeued. */
  function BfsFrom(adj: seq<seq<Arc>>, queue: seq<int>, visited: set<int>): (out: seq<int>)
    requires Closed(adj) && SetBelow(visited, |adj|) && SeqBelow(queue, |adj|)
    ensures SeqBelow(out, |adj|)
    decreases |adj| - |visited|, |queue|
  {
    if queue == [] then []
    else
      var f := Fresh(adj[queue[0]], visited);
      DequeueInRange(adj, queue, visited);
      [queue[0]] + BfsFrom(adj, queue[1..] + f, visited + Targets(adj[queue[0]]))
  }

  /** BFS_visual from a start node in range: the start is marked and enqueued. */
  function Bfs(adj: seq<seq<Arc>>, start: int): (order: seq<int>)
    requires Closed(adj) && 0 <= start < |adj|
    ensures |order| >= 1 && order[0] == start && SeqBelow(order, |adj|)
  {
    BfsFrom(adj, [start], {start})
  }

  /** One dequeue emits the head and then the run from the next queue. */
  lemma BfsStep(adj: seq<seq<Arc>>, q: seq<int>, vis: set<int>)
    requires Closed(adj) && SetBelow(vis, |adj|) && SeqBelow(q, |adj|) && q != []
    requires SetBelow(vis + Targets(adj[q[0]]), |adj|)
    requires SeqBelow(q[1..] + Fresh(adj[q[0]], vis), |adj|)
    ensures var out := BfsFrom(adj, q, vis);
      var out' := BfsFrom(adj, q[1..] + Fresh(adj[q[0]], vis), vis + Targets(adj[q[0]]));
      |out| == |out'| + 1 && out[0] == q[0] && forall i :: 1 <= i < |out| ==> out[i] == out'[i - 1]
  {
  }

  lemma DistinctCons(u: int, s: seq<int>)
    requires Distinct(s) && u !in s
    ensures Distinct([u] + s)
  {
    var t := [u] + s;
    forall i, j | 0 <= i < j < |t| ensures t[i] != t[j] {
      assert t[j] == s[j - 1];
      if i > 0 {
        assert t[i] == s[i - 1];
      }
    }
  }

  /** The queue is emitted first, in queue order. */
  lemma {:induction false} BfsPrefix(adj: seq<seq<Arc>>, q: seq<int>, vis: set<int>)
    requires Closed(adj) && SetBelow(vis, |adj|) && SeqBelow(q, |adj|)
    ensures var out := BfsFrom(adj, q, vis);
      |out| >= |q| && forall i :: 0 <= i < |q| ==> out[i] == q[i]
    decreases |adj| - |vis|, |q|
  {
    if q != [] {
      var f := Fresh(adj[q[0]], vis);
      DequeueInRange(adj, q, vis);
      var q' := q[1..] + f;
      BfsPrefix(adj, q', vis + Targets(adj[q[0]]));
      var out' := BfsFrom(adj, q', vis + Targets(adj[q[0]]));
      var out := BfsFrom(adj, q, vis);
      BfsStep(adj, q, vis);
      forall i | 1 <= i < |q| ensures out[i] == q[i] {
        assert out[i] == out'[i - 1] == q'[i - 1] == q[i];
      }
    }
  }

  /** One dequeue keeps the queue free of repeats and inside the visited set. */
  lemma DequeueKeepsQueue(adj: seq<seq<Arc>>, q: seq<int>, vis: set<int>)
    requires Closed(adj) && SetBelow(vis, |adj|) && SeqBelow(q, |adj|)
    requires (forall i :: 0 <= i < |q| ==> q[i] in vis) && Distinct(q) && q != []
    ensures var f := Fresh(adj[q[0]], vis);
      var q', vis' := q[1..] + f, vis + Targets(adj[q[0]]);
      (forall i :: 0 <= i < |q'| ==> q'[i] in vis') && Distinct(q')
  {
    var f := Fresh(adj[q[0]], vis);
    FreshFacts(adj[q[0]], vis);
    var q', vis' := q[1..] + f, vis + Targets(adj[q[0]]);
    forall i, j | 0 <= i < j < |q'| ensures q'[i] != q'[j] {
      if j < |q| - 1 {
        assert q'[i] == q[i + 1] && q'[j] == q[j + 1];
      } else if i < |q| - 1 {
        assert q'[i] == q[i + 1] && q'[j] == f[j - (|q| - 1)];
      } else {
        assert q'[i] == f[i - (|q| - 1)] && q'[j] == f[j - (|q| - 1)];
      }
    }
    forall i | 0 <= i < |q'| ensures q'[i] in vis' {
      if i < |q| - 1 {
        assert q'[i] == q[i + 1];
      } else {
        assert q'[i] == f[i - (|q| - 1)];
      }
    }
  }

  /** A node emitted after the queue was not visited when the run began. */
  lemma {:induction false} BfsAfterQueue(adj: seq<seq<Arc>>, q: seq<int>, vis: set<int>)
    requires Closed(adj) && SetBelow(vis, |adj|) && SeqBelow(q, |adj|)
    ensures var out := BfsFrom(adj, q, vis);
      forall i :: |q| <= i < |out| ==> out[i] !in vis
    decreases |adj| - |vis|, |q|
  {
    if q != [] {
      var f := Fresh(adj[q[0]], vis);
      DequeueInRange(adj, q, vis);
      var q', vis' := q[1..] + f, vis + Targets(adj[q[0]]);
      BfsAfterQueue(adj, q', vis');
      BfsPrefix(adj, q', vis');
      var out' := BfsFrom(adj, q', vis');
      var out := BfsFrom(adj, q, vis);
      BfsStep(adj, q, vis);
      forall i | |q| <= i < |out| ensures out[i] !in vis {
        assert out[i] == out'[i - 1];
        if i - 1 < |q'| {
          assert out'[i - 1] == q'[i - 1] == f[i - |q|];
        }
      }
    }
  }

  /** The head of a queue of distinct visited nodes is not emitted again by
      the rest of the run. */
  lemma BfsHeadOnce(adj: seq<seq<Arc>>, q: seq<int>, vis: set<int>)
    requires Closed(adj) && SetBelow(vis, |adj|) && SeqBelow(q, |adj|)
    requires (forall i :: 0 <= i < |q| ==> q[i] in vis) && Distinct(q) && q != []
    requires SetBelow(vis + Targets(adj[q[0]]), |adj|)
    requires SeqBelow(q[1..] + Fresh(adj[q[0]], vis), |adj|)
    ensures q[0] !in BfsFrom(adj, q[1..] + Fresh(adj[q[0]], vis), vis + Targets(adj[q[0]]))
  {
    var f := Fresh(adj[q[0]], vis);
    var q', vis' := q[1..] + f, vis + Targets(adj[q[0]]);
    BfsPrefix(adj, q', vis');
    BfsAfterQueue(adj, q', vis');
    var out' := BfsFrom(adj, q', vis');
    forall k | 0 <= k < |out'| ensures out'[k] != q[0] {
      if k < |q| - 1 {
        assert out'[k] == q'[k] == q[k + 1];
      } else if k < |q'| {
        assert out'[k] == q'[k] == f[k - (|q| - 1)];
      }
    }
  }

  /** No node is emitted twice when the queue holds no repeats and only
      visited nodes. */
  lemma {:induction false} BfsDistinct(adj: seq<seq<Arc>>, q: seq<int>, vis: set<int>)
    requires Closed(adj) && SetBelow(vis, |adj|) && SeqBelow(q, |adj|)
    requires (forall i :: 0 <= i < |q| ==> q[i] in vis) && Distinct(q)
    ensures Distinct(BfsFrom(adj, q, vis))
    decreases |adj| - |vis|, |q|
  {
    if q != [] {
      var f := Fresh(adj[q[0]], vis);
      DequeueInRange(adj, q, vis);
      DequeueKeepsQueue(adj, q, vis);
      var q', vis' := q[1..] + f, vis + Targets(adj[q[0]]);
      var out' := BfsFrom(adj, q', vis');
      BfsDistinct(adj, q', vis');
      BfsHeadOnce(adj, q, vis);
      DistinctCons(q[0], out');
      assert BfsFrom(adj, q, vis) == [q[0]] + out';
    }
  }

  /** Everything emitted is reachable from the start when everything queued is. */
  lemma {:induction false} BfsSound(adj: seq<seq<Arc>>, q: seq<int>, vis: set<int>, start: int)
    requires Closed(adj) && SetBelow(vis, |adj|) && SeqBelow(q, |adj|)
    requires forall i :: 0 <= i < |q| ==> Reachable(adj, start, q[i])
    ensures forall x :: x in BfsFrom(adj, q, vis) ==> Reachable(adj, start, x)
    decreases |adj| - |vis|, |q|
  {
    if q != [] {
      var u := q[0];
      var f := Fresh(adj[u], vis);
      DequeueInRange(adj, q, vis);
      var q' := q[1..] + f;
      forall i | 0 <= i < |q'| ensures Reachable(adj, start, q'[i]) {
        if i < |q| - 1 {
          assert q'[i] == q[i + 1];
        } else {
          assert q'[i] == f[i - (|q| - 1)];
          ReachStep(adj, start, u, q'[i]);
        }
      }
      BfsSound(adj, q', vis + Targets(adj[q[0]]), start);
    }
  }

  /** Every target of an emitted node is visited before the run or emitted. */
  lemma {:induction false} BfsClosure(adj: seq<seq<Arc>>, q: seq<int>, vis: set<int>)
    requires Closed(adj) && SetBelow(vis, |adj|) && SeqBelow(q, |adj|)
    ensures var out := BfsFrom(adj, q, vis);
      forall i, t :: 0 <= i < |out| && t in Targets(adj[out[i]]) ==> t in vis || t in out
    decreases |adj| - |vis|, |q|
  {
    if q != [] {
      var u := q[0];
      var f := Fresh(adj[u], vis);
      DequeueInRange(adj, q, vis);
      FreshFacts(adj[u], vis);
      var q', vis' := q[1..] + f, vis + Targets(adj[q[0]]);
      BfsClosure(adj, q', vis');
      BfsPrefix(adj, q', vis');
      var out' := BfsFrom(adj, q', vis');
      var out := BfsFrom(adj, q, vis);
      assert out == [u] + out';
      forall k | 0 <= k < |f| ensures f[k] in out' {
        assert out'[|q| - 1 + k] == q'[|q| - 1 + k] == f[k];
      }
      forall i, t | 0 <= i < |out| && t in Targets(adj[out[i]]) ensures t in vis || t in out {
        if i > 0 {
          assert out[i] == out'[i - 1];
        }
        if t !in vis && t in f {
          var k :| 0 <= k < |f| && f[k] == t;
        }
      }
    }
  }

  /** Every node reachable from the start is emitted by BFS_visual. */
  lemma BfsComplete(adj: seq<seq<Arc>>, start: int)
    requires Closed(adj) && 0 <= start < |adj|
    ensures forall v :: 0 <= v < |adj| && Reachable(adj, start, v) ==> v in Bfs(adj, start)
  {
    var out := Bfs(adj, start);
    BfsPrefix(adj, [start], {start});
    var s := Elems(out);
    assert start in s;
    assert forall x, t :: x in s && t in Targets(adj[x]) ==> t in s by {
      BfsClosure(adj, [start], {start});
      forall x, t | x in s && t in Targets(adj[x]) ensures t in s {
        var i :| 0 <= i < |out| && out[i] == x;
      }
    }
    forall v | 0 <= v < |adj| && Reachable(adj, start, v) ensures v in out {
      ClosedSetHoldsReachable(adj, s, start, v);
    }
  }

  /** BFS_visual emits the start first and then every node reachable from it,
      each exactly once, and nothing else. */
  lemma BfsVisitsReachable(adj: seq<seq<Arc>>, start: int)
    requires Closed(adj) && 0 <= start < |adj|
    ensures var out := Bfs(adj, start);
      && |out| >= 1 && out[0] == start && Distinct(out)
      && forall v :: v in out <==> 0 <= v < |adj| && Reachable(adj, start, v)
  {
    BfsPrefix(adj, [start], {start});
    BfsDistinct(adj, [start], {start});
    ReachSelf(adj, start);
    BfsSound(adj, [start], {start}, start);
    BfsComplete(adj, start);
  }

  // ---------------------------------------------------------------------
  // Depth-first search

  /** The push loop of DFS_visual (main.cpp:285-288): the arcs of the row are
      taken from the last to the first and each target not yet visited is
      pushed, so the target of the first arc ends up on top. */
  function PushUnvisited(row: seq<Arc>, visited: set<int>, stack: seq<int>): (r: seq<int>)
    ensures |r| >= |stack| && forall i :: 0 <= i < |stack| ==> r[i] == stack[i]
    ensures forall i :: |stack| <= i < |r| ==> r[i] !in visited && r[i] in Targets(row)
    decreases |row|
  {
    if row == [] then stack
    else
      var v := row[0].to;
      var r := PushUnvisited(row[1..], visited, stack);
      if v in visited then r else r + [v]
  }

  /** A pushed row keeps the stack in range. */
  lemma PushRowBelow(row: seq<Arc>, visited: set<int>, stack: seq<int>, n: int)
    requires forall k :: 0 <= k < |row| ==> 0 <= row[k].to < n
    requires SeqBelow(stack, n)
    ensures SeqBelow(PushUnvisited(row, visited, stack), n)
  {
    TargetsBelowRow(row, n);
  }

  lemma PushInRange(adj: seq<seq<Arc>>, u: int, visited: set<int>, stack: seq<int>)
    requires Closed(adj) && 0 <= u < |adj| && SeqBelow(stack, |adj|)
    ensures SeqBelow(PushUnvisited(adj[u], visited, stack), |adj|)
  {
    PushRowBelow(adj[u], visited, stack, |adj|);
  }

  /** The stack loop of DFS_visual (main.cpp:281-289), from a given stack (top
      last) and set of visited nodes: the visit order and the visited set at
      the end. */
  function DfsRun(adj: seq<seq<Arc>>, stack: seq<int>, visited: set<int>): (r: (seq<int>, set<int>))
    requires Closed(adj) && SetBelow(visited, |adj|) && SeqBelow(stack, |adj|)
    ensures visited <= r.1 && SetBelow(r.1, |adj|) && SeqBelow(r.0, |adj|)
    decreases |adj| - |visited|, |stack|
  {
    if stack == [] then ([], visited)
    else
      var u := stack[|stack| - 1];
      var rest := stack[..|stack| - 1];
      if u in visited then DfsRun(adj, rest, visited)
      else
        PushInRange(adj, u, visited + {u}, rest);
        RangeCard(visited + {u}, |adj|);
        var r := DfsRun(adj, PushUnvisited(adj[u], visited + {u}, rest), visited + {u});
        ([u] + r.0, r.1)
  }

  /** DFS_visual from a start node in range: all flags cleared, start pushed. */
  function Dfs(adj: seq<seq<Arc>>, start: int): (order: seq<int>)
    requires Closed(adj) && 0 <= start < |adj|
    ensures |order| >= 1 && order[0] == start && SeqBelow(order, |adj|)
  {
    DfsRun(adj, [start], {}).0
  }

  /** The nodes marked at the end are those marked before and those emitted. */
  lemma {:induction false} DfsMarks(adj: seq<seq<Arc>>, stack: seq<int>, vis: set<int>)
    requires Closed(adj) && SetBelow(vis, |adj|) && SeqBelow(stack, |adj|)
    ensures var r := DfsRun(adj, stack, vis);
      forall x :: x in r.1 <==> x in vis || x in r.0
    decreases |adj| - |vis|, |stack|
  {
    if stack != [] {
      var u := stack[|stack| - 1];
      var rest := stack[..|stack| - 1];
      if u in vis {
        DfsMarks(adj, rest, vis);
      } else {
        PushInRange(adj, u, vis + {u}, rest);
        RangeCard(vis + {u}, |adj|);
        DfsMarks(adj, PushUnvisited(adj[u], vis + {u}, rest), vis + {u});
      }
    }
  }

  /** No node is emitted twice, and none that was visited before the run. */
  lemma {:induction false} DfsDistinct(adj: seq<seq<Arc>>, stack: seq<int>, vis: set<int>)
    requires Closed(adj) && SetBelow(vis, |adj|) && SeqBelow(stack, |adj|)
    ensures var out := DfsRun(adj, stack, vis).0;
      Distinct(out) && forall i :: 0 <= i < |out| ==> out[i] !in vis
    decreases |adj| - |vis|, |stack|
  {
    if stack != [] {
      var u := stack[|stack| - 1];
      var rest := stack[..|stack| - 1];
      if u in vis {
        DfsDistinct(adj, rest, vis);
      } else {
        PushInRange(adj, u, vis + {u}, rest);
        RangeCard(vis + {u}, |adj|);
        DfsDistinct(adj, PushUnvisited(adj[u], vis + {u}, rest), vis + {u});
      }
    }
  }

  lemma {:induction false} DfsSound(adj: seq<seq<Arc>>, stack: seq<int>, vis: set<int>, start: int)
    requires Closed(adj) && SetBelow(vis, |adj|) && SeqBelow(stack, |adj|)
    requires forall i :: 0 <= i < |stack| ==> Reachable(adj, start, stack[i])
    ensures forall x :: x in DfsRun(adj, stack, vis).0 ==> Reachable(adj, start, x)
    decreases |adj| - |vis|, |stack|
  {
    if stack != [] {
      var u := stack[|stack| - 1];
      var rest := stack[..|stack| - 1];
      if u in vis {
        DfsSound(adj, rest, vis, start);
      } else {
        PushInRange(adj, u, vis + {u}, rest);
        RangeCard(vis + {u}, |adj|);
        var pushed := PushUnvisited(adj[u], vis + {u}, rest);
        forall i | 0 <= i < |pushed| ensures Reachable(adj, start, pushed[i]) {
          if i < |rest| {
            assert pushed[i] == rest[i];
          } else {
            ReachStep(adj, start, u, pushed[i]);
          }
        }
        DfsSound(adj, pushed, vis + {u}, start);
      }
    }
  }

  /** A target of the row that is not visited is pushed. */
  lemma {:induction false} PushUnvisitedHolds(row: seq<Arc>, visited: set<int>, stack: seq<int>, t: int)
    requires t in Targets(row) && t !in visited
    ensures t in PushUnvisited(row, visited, stack)
    decreases |row|
  {
    var v := row[0].to;
    var r := PushUnvisited(row[1..], visited, stack);
    if v == t {
      assert (r + [v])[|r|] == t;
    } else {
      PushUnvisitedHolds(row[1..], visited, stack, t);
      var k :| 0 <= k < |r| && r[k] == t;
      assert v !in visited ==> (r + [v])[k] == t;
    }
  }

  /** Every node on the stack is visited by the end of the run, and so is
      every target of an emitted node. */
  lemma {:induction false} DfsClosure(adj: seq<seq<Arc>>, stack: seq<int>, vis: set<int>)
    requires Closed(adj) && SetBelow(vis, |adj|) && SeqBelow(stack, |adj|)
    ensures var r := DfsRun(adj, stack, vis);
      && (forall i :: 0 <= i < |stack| ==> stack[i] in r.1)
      && forall i, t :: 0 <= i < |r.0| && t in Targets(adj[r.0[i]]) ==> t in r.1
    decreases |adj| - |vis|, |stack|
  {
    if stack != [] {
      var u := stack[|stack| - 1];
      var rest := stack[..|stack| - 1];
      if u in vis {
        DfsClosure(adj, rest, vis);
        forall i | 0 <= i < |stack| - 1 ensures stack[i] in DfsRun(adj, stack, vis).1 {
          assert stack[i] == rest[i];
        }
      } else {
        PushInRange(adj, u, vis + {u}, rest);
        RangeCard(vis + {u}, |adj|);
        var pushed := PushUnvisited(adj[u], vis + {u}, rest);
        DfsClosure(adj, pushed, vis + {u});
        var r' := DfsRun(adj, pushed, vis + {u});
        var r := DfsRun(adj, stack, vis);
        assert r == ([u] + r'.0, r'.1);
        forall i | 0 <= i < |stack| - 1 ensures stack[i] in r.1 {
          assert stack[i] == rest[i] == pushed[i];
        }
        forall t | t in Targets(adj[u]) ensures t in r.1 {
          if t !in vis + {u} {
            PushUnvisitedHolds(adj[u], vis + {u}, rest, t);
          }
        }
        forall i, t | 0 <= i < |r.0| && t in Targets(adj[r.0[i]]) ensures t in r.1 {
          if i > 0 {
            assert r.0[i] == r'.0[i - 1];
          }
        }
      }
    }
  }

  /** DFS_visual emits the start first and then every node reachable from it,
      each exactly once, and nothing else. */
  lemma DfsVisitsReachable(adj: seq<seq<Arc>>, start: int)
    requires Closed(adj) && 0 <= start < |adj|
    ensures var out := Dfs(adj, start);
      && |out| >= 1 && out[0] == start && Distinct(out)
      && forall v :: v in out <==> 0 <= v < |adj| && Reachable(adj, start, v)
  {
    var r := DfsRun(adj, [start], {});
    var out := r.0;
    DfsMarks(adj, [start], {});
    DfsDistinct(adj, [start], {});
    ReachSelf(adj, start);
    DfsSound(adj, [start], {}, start);
    DfsClosure(adj, [start], {});
    assert start in out;
    var s := Elems(out);
    forall v | 0 <= v < |adj| && Reachable(adj, start, v) ensures v in out {
      ClosedSetHoldsReachable(adj, s, start, v);
    }
  }

  // ---------------------------------------------------------------------
  // The DFS order is the recursive preorder

  /** The recursive walk from u: u, then the walks from the targets of its row
      that are still unvisited, taken first to last. */
  function Preorder(adj: seq<seq<Arc>>, u: int, visited: set<int>): (r: (seq<int>, set<int>))
    requires Closed(adj) && SetBelow(visited, |adj|) && 0 <= u < |adj| && u !in visited
    ensures visited + {u} <= r.1 && |r.1| > |visited| && SetBelow(r.1, |adj|)
    decreases |adj| - |visited|, 0
  {
    RangeCard(visited + {u}, |adj|);
    var r := PreorderRow(adj, adj[u], visited + {u});
    ([u] + r.0, r.1)
  }

  /** The walks from the targets of one row, first to last, each from a target
      not visited by the walks before it. */
  function PreorderRow(adj: seq<seq<Arc>>, row: seq<Arc>, visited: set<int>): (r: (seq<int>, set<int>))
    requires Closed(adj) && SetBelow(visited, |adj|)
    requires forall k :: 0 <= k < |row| ==> 0 <= row[k].to < |adj|
    ensures visited <= r.1 && |r.1| >= |visited| && SetBelow(r.1, |adj|)
    decreases |adj| - |visited|, |row| + 1
  {
    if row == [] then ([], visited)
    else
      var v := row[0].to;
      if v in visited then PreorderRow(adj, row[1..], visited)
      else
        var a := Preorder(adj, v, visited);
        RangeCard(a.1, |adj|);
        var b := PreorderRow(adj, row[1..], a.1);
        (a.0 + b.0, b.1)
  }

  /** Pushing a row onto a stack pushes the same nodes whatever lies below. */
  lemma {:induction false} PushUnvisitedAppends(row: seq<Arc>, visited: set<int>, below: seq<int>, stack: seq<int>)
    ensures PushUnvisited(row, visited, below + stack) == below + PushUnvisited(row, visited, stack)
    decreases |row|
  {
    if row != [] {
      var v := row[0].to;
      PushUnvisitedAppends(row[1..], visited, below, stack);
      var r := PushUnvisited(row[1..], visited, stack);
      assert (below + r) + [v] == below + (r + [v]);
    }
  }

  /** Running the stack S + T runs T first (it is on top) and then S. */
  lemma {:induction false} DfsSplit(adj: seq<seq<Arc>>, s: seq<int>, t: seq<int>, vis: set<int>)
    requires Closed(adj) && SetBelow(vis, |adj|) && SeqBelow(s, |adj|) && SeqBelow(t, |adj|)
    ensures var rt := DfsRun(adj, t, vis);
      var rs := DfsRun(adj, s, rt.1);
      DfsRun(adj, s + t, vis) == (rt.0 + rs.0, rs.1)
    decreases |adj| - |vis|, |t|, 1
  {
    if t == [] {
      assert s + t == s;
      assert DfsRun(adj, t, vis) == ([], vis);
      assert [] + DfsRun(adj, s, vis).0 == DfsRun(adj, s, vis).0;
    } else if t[|t| - 1] in vis {
      var t' := t[..|t| - 1];
      assert (s + t)[..|s + t| - 1] == s + t';
      assert (s + t)[|s + t| - 1] == t[|t| - 1];
      DfsSplit(adj, s, t', vis);
    } else {
      assert t == t[..|t| - 1] + [t[|t| - 1]];
      DfsSplitVisit(adj, s, t[..|t| - 1], t[|t| - 1], vis);
    }
  }

  /** One visiting step of DfsRun, with the facts its recursive call needs. */
  lemma DfsVisitTop(adj: seq<seq<Arc>>, rest: seq<int>, u: int, vis: set<int>)
    requires Closed(adj) && SetBelow(vis, |adj|) && SeqBelow(rest, |adj|) && 0 <= u < |adj| && u !in vis
    ensures SetBelow(vis + {u}, |adj|) && |vis| < |vis + {u}| <= |adj|
    ensures SeqBelow(PushUnvisited(adj[u], vis + {u}, rest), |adj|)
    ensures var r := DfsRun(adj, PushUnvisited(adj[u], vis + {u}, rest), vis + {u});
      DfsRun(adj, rest + [u], vis) == ([u] + r.0, r.1)
  {
    PushInRange(adj, u, vis + {u}, rest);
    RangeCard(vis + {u}, |adj|);
    assert (rest + [u])[..|rest|] == rest;
  }

  /** A popped node that is already visited is skipped. */
  lemma DfsSkipTop(adj: seq<seq<Arc>>, rest: seq<int>, u: int, vis: set<int>)
    requires Closed(adj) && SetBelow(vis, |adj|) && SeqBelow(rest, |adj|) && 0 <= u < |adj| && u in vis
    ensures DfsRun(adj, rest + [u], vis) == DfsRun(adj, rest, vis)
  {
    assert (rest + [u])[..|rest|] == rest;
  }

  /** The visiting step of DfsRun on a stack S + rest + [u]: the row of u is
      pushed between rest and the top, above S. */
  lemma DfsVisitAbove(adj: seq<seq<Arc>>, s: seq<int>, rest: seq<int>, u: int, vis: set<int>)
    requires Closed(adj) && SetBelow(vis, |adj|) && SeqBelow(s, |adj|) && SeqBelow(rest, |adj|)
    requires 0 <= u < |adj| && u !in vis
    ensures SetBelow(vis + {u}, |adj|) && SeqBelow(s + PushUnvisited(adj[u], vis + {u}, rest), |adj|)
    ensures var r := DfsRun(adj, s + PushUnvisited(adj[u], vis + {u}, rest), vis + {u});
      DfsRun(adj, s + (rest + [u]), vis) == ([u] + r.0, r.1)
  {
    assert s + (rest + [u]) == (s + rest) + [u];
    DfsVisitTop(adj, s + rest, u, vis);
    PushUnvisitedAppends(adj[u], vis + {u}, s, rest);
  }

  /** The case of DfsSplit where the top u of T is visited now. */
  lemma {:induction false} DfsSplitVisit(adj: seq<seq<Arc>>, s: seq<int>, rest: seq<int>, u: int, vis: set<int>)
    requires Closed(adj) && SetBelow(vis, |adj|) && SeqBelow(s, |adj|) && SeqBelow(rest, |adj|)
    requires 0 <= u < |adj| && u !in vis
    ensures var rt := DfsRun(adj, rest + [u], vis);
      var rs := DfsRun(adj, s, rt.1);
      DfsRun(adj, s + (rest + [u]), vis) == (rt.0 + rs.0, rs.1)
    decreases |adj| - |vis|, |rest| + 1, 0
  {
    var p := PushUnvisited(adj[u], vis + {u}, rest);
    DfsVisitTop(adj, rest, u, vis);
    DfsVisitAbove(adj, s, rest, u, vis);
    var rp := DfsRun(adj, p, vis + {u});
    var rs := DfsRun(adj, s, rp.1);
    assert DfsRun(adj, s + p, vis + {u}) == (rp.0 + rs.0, rs.1) by {
      DfsSplit(adj, s, p, vis + {u});
    }
    ConsAssoc(u, rp.0, rs.0);
  }

  lemma ConsAssoc(u: int, a: seq<int>, b: seq<int>)
    ensures [u] + (a + b) == ([u] + a) + b
  {
  }

  /** DFS_visual from a single unvisited node walks its recursive preorder. */
  lemma {:induction false} DfsFromNode(adj: seq<seq<Arc>>, u: int, vis: set<int>)
    requires Closed(adj) && SetBelow(vis, |adj|) && 0 <= u < |adj| && u !in vis
    ensures DfsRun(adj, [u], vis) == Preorder(adj, u, vis)
    decreases |adj| - |vis|, 0
  {
    RangeCard(vis + {u}, |adj|);
    PushInRange(adj, u, vis + {u}, []);
    assert [u][..0] == [];
    DfsFromRow(adj, adj[u], vis + {u}, vis + {u});
  }

  /** The pushes of one row, run against a visited set that has only grown
      since, walk the row's preorder. */
  lemma {:induction false} DfsFromRow(adj: seq<seq<Arc>>, row: seq<Arc>, vis: set<int>, w: set<int>)
    requires Closed(adj) && SetBelow(w, |adj|) && vis <= w
    requires forall k :: 0 <= k < |row| ==> 0 <= row[k].to < |adj|
    requires SeqBelow(PushUnvisited(row, vis, []), |adj|)
    ensures DfsRun(adj, PushUnvisited(row, vis, []), w) == PreorderRow(adj, row, w)
    decreases |adj| - |w|, |row| + 1
  {
    if row != [] {
      var v := row[0].to;
      var p' := PushUnvisited(row[1..], vis, []);
      PushRowBelow(row[1..], vis, [], |adj|);
      if v in w {
        if v !in vis {
          assert (p' + [v])[..|p'|] == p';
        } else {
          assert p' + [] == p';
        }
        DfsFromRow(adj, row[1..], vis, w);
      } else {
        DfsSplit(adj, p', [v], w);
        DfsFromNode(adj, v, w);
        var a := Preorder(adj, v, w);
        RangeCard(a.1, |adj|);
        DfsFromRow(adj, row[1..], vis, a.1);
      }
    }
  }

  /** DFS_visual visits the nodes in the order of the recursive preorder walk
      from the start. */
  lemma DfsIsPreorder(adj: seq<seq<Arc>>, start: int)
    requires Closed(adj) && 0 <= start < |adj|
    ensures Dfs(adj, start) == Preorder(adj, start, {}).0
  {
    DfsFromNode(adj, start, {});
  }

  // ---------------------------------------------------------------------
  // A worked example

  /** The worked example: node 0 with arcs to 1 and 2, node 1 with an arc to
      3 and node 3 with an arc to 4. */
  predicate IsExample(ex: seq<seq<Arc>>) {
    && |ex| == 5 && ex[0] == [Arc(1, 1), Arc(2, 1)] && ex[1] == [Arc(3, 1)]
    && ex[2] == [] && ex[3] == [Arc(4, 1)] && ex[4] == []
  }

  lemma ExampleClosed(ex: seq<seq<Arc>>)
    requires IsExample(ex)
    ensures Closed(ex)
  {
  }

  /** The last visit of DFS_visual on the example: node 2. */
  lemma ExampleDfs4(ex: seq<seq<Arc>>)
    requires IsExample(ex)
    ensures Closed(ex) && DfsRun(ex, [2], {0, 1, 3, 4}) == ([2], {0, 1, 2, 3, 4})
  {
    assert [] + [2] == [2] && [2] + [] == [2];
    assert {0, 1, 3, 4} + {2} == {0, 1, 2, 3, 4};
    ExampleClosed(ex);
    DfsVisitTop(ex, [], 2, {0, 1, 3, 4});
    assert PushUnvisited(ex[2], {0, 1, 2, 3, 4}, []) == [];
    assert DfsRun(ex, [], {0, 1, 2, 3, 4}) == ([], {0, 1, 2, 3, 4});
  }

  /** Node 4 is popped before node 2, which waits lower on the stack. */
  lemma ExampleDfs3(ex: seq<seq<Arc>>)
    requires IsExample(ex)
    ensures Closed(ex) && DfsRun(ex, [2, 4], {0, 1, 3}) == ([4, 2], {0, 1, 2, 3, 4})
  {
    assert [2] + [4] == [2, 4] && [4] + [2] == [4, 2];
    assert {0, 1, 3} + {4} == {0, 1, 3, 4};
    ExampleDfs4(ex);
    DfsVisitTop(ex, [2], 4, {0, 1, 3});
    assert PushUnvisited(ex[4], {0, 1, 3, 4}, [2]) == [2];
  }

  /** Node 3 is popped and its arc to 4 pushed above node 2. */
  lemma ExampleDfs2(ex: seq<seq<Arc>>)
    requires IsExample(ex)
    ensures Closed(ex) && DfsRun(ex, [2, 3], {0, 1}) == ([3, 4, 2], {0, 1, 2, 3, 4})
  {
    assert [2] + [3] == [2, 3] && [3] + [4, 2] == [3, 4, 2];
    assert {0, 1} + {3} == {0, 1, 3};
    assert ex[3][1..] == [];
    ExampleDfs3(ex);
    DfsVisitTop(ex, [2], 3, {0, 1});
    assert PushUnvisited(ex[3], {0, 1, 3}, [2]) == [2, 4];
  }

  /** Node 1 is popped and its arc to 3 pushed above node 2. */
  lemma ExampleDfs1(ex: seq<seq<Arc>>)
    requires IsExample(ex)
    ensures Closed(ex) && DfsRun(ex, [2, 1], {0}) == ([1, 3, 4, 2], {0, 1, 2, 3, 4})
  {
    assert [2] + [1] == [2, 1] && [1] + [3, 4, 2] == [1, 3, 4, 2];
    assert {0} + {1} == {0, 1};
    assert ex[1][1..] == [];
    ExampleDfs2(ex);
    DfsVisitTop(ex, [2], 1, {0});
    assert PushUnvisited(ex[1], {0, 1}, [2]) == [2, 3];
  }

  /** DFS_visual on the example goes deep first: 0, 1, 3, 4 and only then 2. */
  lemma ExampleDfs(ex: seq<seq<Arc>>)
    requires IsExample(ex)
    ensures Closed(ex) && Dfs(ex, 0) == [0, 1, 3, 4, 2]
  {
    assert [] + [0] == [0] && [0] + [1, 3, 4, 2] == [0, 1, 3, 4, 2];
    assert {} + {0} == {0};
    assert ex[0][1..] == [Arc(2, 1)] && ex[0][1..][1..] == [];
    assert [] + [2] == [2] && [2] + [1] == [2, 1];
    assert PushUnvisited(ex[0][1..], {0}, []) == [2];
    assert PushUnvisited(ex[0], {0}, []) == [2, 1];
    ExampleDfs1(ex);
    DfsVisitTop(ex, [], 0, {});
  }

  /** The last dequeue of BFS_visual on the example: node 4. */
  lemma ExampleBfs4(ex: seq<seq<Arc>>)
    requires IsExample(ex)
    ensures Closed(ex) && BfsFrom(ex, [4], {0, 1, 2, 3, 4}) == [4]
  {
    var all := {0, 1, 2, 3, 4};
    assert [4][1..] + [] == [] && [4] + [] == [4];
    ExampleClosed(ex);
    assert Fresh(ex[4], all) == [] && all + Targets(ex[4]) == all;
    assert BfsFrom(ex, [], all) == [];
  }

  /** Node 3 is dequeued and its arc enqueues 4. */
  lemma ExampleBfs3(ex: seq<seq<Arc>>)
    requires IsExample(ex)
    ensures Closed(ex) && BfsFrom(ex, [3], {0, 1, 2, 3}) == [3, 4]
  {
    assert [3][1..] + [4] == [4] && [3] + [4] == [3, 4];
    assert {0, 1, 2, 3} + {4} == {0, 1, 2, 3, 4};
    assert ex[3][1..] == [];
    ExampleBfs4(ex);
    assert Fresh(ex[3], {0, 1, 2, 3}) == [4];
    assert Targets(ex[3]) == {4};
  }

  /** Node 2 is dequeued and enqueues nothing. */
  lemma ExampleBfs2(ex: seq<seq<Arc>>)
    requires IsExample(ex)
    ensures Closed(ex) && BfsFrom(ex, [2, 3], {0, 1, 2, 3}) == [2, 3, 4]
  {
    assert [2, 3][1..] + [] == [3];
    assert [2] + [3, 4] == [2, 3, 4];
    ExampleBfs3(ex);
    assert Fresh(ex[2], {0, 1, 2, 3}) == [];
    assert {0, 1, 2, 3} + Targets(ex[2]) == {0, 1, 2, 3};
  }

  /** Node 1 is dequeued and its arc to 3 enqueues 3 behind 2. */
  lemma ExampleBfs1(ex: seq<seq<Arc>>)
    requires IsExample(ex)
    ensures Closed(ex) && BfsFrom(ex, [1, 2], {0, 1, 2}) == [1, 2, 3, 4]
  {
    assert [1, 2][1..] + [3] == [2, 3];
    assert {0, 1, 2} + {3} == {0, 1, 2, 3};
    assert [1] + [2, 3, 4] == [1, 2, 3, 4];
    ExampleBfs2(ex);
    assert ex[1][1..] == [];
    assert Fresh(ex[1], {0, 1, 2}) == [3];
    assert Targets(ex[1]) == {3};
  }

  /** BFS_visual on the example goes level by level: 0, then 1 and 2, then 3,
      then 4. */
  lemma ExampleBfs(ex: seq<seq<Arc>>)
    requires IsExample(ex)
    ensures Closed(ex) && Bfs(ex, 0) == [0, 1, 2, 3, 4]
  {
    assert [0][1..] + [1, 2] == [1, 2];
    assert {0} + {1, 2} == {0, 1, 2};
    assert [0] + [1, 2, 3, 4] == [0, 1, 2, 3, 4];
    assert [1] + [2] == [1, 2] && [2] + [] == [2] && {0} + {1} == {0, 1};
    assert ex[0][1..] == [Arc(2, 1)] && ex[0][1..][1..] == [];
    ExampleBfs1(ex);
    assert Fresh(ex[0][1..], {0, 1}) == [2];
    assert Fresh(ex[0], {0}) == [1, 2];
    assert Targets(ex[0]) == {1, 2};
  }
}
