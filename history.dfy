/**
 * The undo/redo history (main.cpp:50-58, 76-91, 332-346): two stacks of
 * snapshots of the graph. Saving pushes the live graph onto the undo stack,
 * evicting the oldest snapshot beyond MAX_UNDO, and forgets every redo; undo
 * and redo swap the live graph with the top of one stack, pushing it on the
 * other. The stacks are sequences whose last element is the top.
 */
module History {
  import opened GraphModel

  const MAX_UNDO := 120

  /** The live graph together with the two snapshot stacks. */
  datatype Session = Session(live: Graph, undo: seq<Graph>, redo: seq<Graph>)

  /** Start-up (main.cpp:421-424): an empty graph, with the empty graph as the
      one snapshot on the undo stack and no redo. */
  const Start := Session(Empty, [Empty], [])

  /** What every reachable session satisfies: every graph in it is well
      formed, and the two stacks together hold at most MAX_UNDO snapshots. */
  predicate Inv(s: Session) {
    && Wf(s.live)
    && (forall i :: 0 <= i < |s.undo| ==> Wf(s.undo[i]))
    && (forall i :: 0 <= i < |s.redo| ==> Wf(s.redo[i]))
    && |s.undo| + |s.redo| <= MAX_UNDO
  }

  /** push_back followed by erasing the first element when the stack has grown
      past MAX_UNDO (main.cpp:80-81). */
  function PushBounded(stack: seq<Graph>, g: Graph): (r: seq<Graph>)
    ensures |stack| < MAX_UNDO ==> r == stack + [g]
    ensures |stack| >= MAX_UNDO ==> r == stack[1..] + [g]
  {
    var pushed := stack + [g];
    if |pushed| > MAX_UNDO then pushed[1..] else pushed
  }

  /** saveSnapshot (main.cpp:76-84). */
  function Save(s: Session): (r: Session)
    ensures r.live == s.live && r.redo == []
    ensures |r.undo| > 0 && r.undo[|r.undo| - 1] == s.live
    ensures |s.undo| < MAX_UNDO ==> r.undo == s.undo + [s.live]
    ensures |s.undo| <= MAX_UNDO ==> |r.undo| <= MAX_UNDO
  {
    Session(s.live, PushBounded(s.undo, s.live), [])
  }

  /** doUndo (main.cpp:332-338): nothing when the undo stack is empty. */
  function Undo(s: Session): (r: Session)
    ensures |s.undo| == 0 ==> r == s
    ensures |s.undo| > 0 ==> |r.undo| == |s.undo| - 1 && |r.redo| == |s.redo| + 1
    ensures |s.undo| > 0 ==> r.live == s.undo[|s.undo| - 1] && r.redo[|r.redo| - 1] == s.live
  {
    if |s.undo| == 0 then s
    else Session(s.undo[|s.undo| - 1], s.undo[..|s.undo| - 1], s.redo + [s.live])
  }

  /** doRedo (main.cpp:340-346): nothing when the redo stack is empty; the
      undo stack grows without the eviction that saveSnapshot applies. */
  function Redo(s: Session): (r: Session)
    ensures |s.redo| == 0 ==> r == s
    ensures |s.redo| > 0 ==> |r.redo| == |s.redo| - 1 && |r.undo| == |s.undo| + 1
    ensures |s.redo| > 0 ==> r.live == s.redo[|s.redo| - 1] && r.undo[|r.undo| - 1] == s.live
  {
    if |s.redo| == 0 then s
    else Session(s.redo[|s.redo| - 1], s.undo + [s.live], s.redo[..|s.redo| - 1])
  }

  /** An editing action: the snapshot is saved, then the live graph becomes g. */
  function Edit(s: Session, g: Graph): (r: Session)
    ensures r.live == g && r.redo == []
    ensures r.undo == Save(s).undo && r.undo[|r.undo| - 1] == s.live
  {
    Save(s).(live := g)
  }

  lemma StartInv()
    ensures Inv(Start)
  {
    EmptyWf();
  }

  lemma SaveInv(s: Session)
    requires Inv(s)
    ensures Inv(Save(s))
  {
    var r := Save(s);
    forall i | 0 <= i < |r.undo| ensures Wf(r.undo[i]) {
      if |s.undo| >= MAX_UNDO {
        assert r.undo == s.undo[1..] + [s.live];
        if i < |r.undo| - 1 {
          assert r.undo[i] == s.undo[i + 1];
        }
      } else if i < |s.undo| {
        assert r.undo[i] == s.undo[i];
      }
    }
  }

  lemma UndoInv(s: Session)
    requires Inv(s)
    ensures Inv(Undo(s))
  {
    var r := Undo(s);
    if |s.undo| > 0 {
      assert forall i :: 0 <= i < |r.undo| ==> r.undo[i] == s.undo[i];
      assert forall i :: 0 <= i < |s.redo| ==> r.redo[i] == s.redo[i];
    }
  }

  lemma RedoInv(s: Session)
    requires Inv(s)
    ensures Inv(Redo(s))
  {
    var r := Redo(s);
    if |s.redo| > 0 {
      assert forall i :: 0 <= i < |r.redo| ==> r.redo[i] == s.redo[i];
      assert forall i :: 0 <= i < |s.undo| ==> r.undo[i] == s.undo[i];
    }
  }

  /** An edit that leaves a well-formed graph keeps the session invariant. */
  lemma EditInv(s: Session, g: Graph)
    requires Inv(s) && Wf(g)
    ensures Inv(Edit(s, g))
  {
    SaveInv(s);
  }

  /** Redo undoes an undo, and undo undoes a redo: the session, including the
      visited flags held in the graphs, comes back exactly. */
  lemma UndoRedoInverse(s: Session)
    ensures |s.undo| > 0 ==> Redo(Undo(s)) == s
    ensures |s.redo| > 0 ==> Undo(Redo(s)) == s
  {
    if |s.undo| > 0 {
      assert s.undo[..|s.undo| - 1] + [s.undo[|s.undo| - 1]] == s.undo;
    }
    if |s.redo| > 0 {
      assert s.redo[..|s.redo| - 1] + [s.redo[|s.redo| - 1]] == s.redo;
    }
  }

  /** Undo right after an edit brings back the graph from before the edit, and
      the undo stack too unless the save evicted its oldest snapshot. */
  lemma UndoRevertsEdit(s: Session, g: Graph)
    ensures Undo(Edit(s, g)).live == s.live
    ensures |s.undo| < MAX_UNDO ==> Undo(Edit(s, g)).undo == s.undo
    ensures Undo(Edit(s, g)).redo == [g]
  {
    var e := Edit(s, g);
    if |s.undo| < MAX_UNDO {
      assert (s.undo + [s.live])[..|s.undo|] == s.undo;
    }
  }

  /** After an edit there is nothing to redo. */
  lemma EditClearsRedo(s: Session, g: Graph)
    ensures Redo(Edit(s, g)) == Edit(s, g)
  {
  }

  /** Saving on a full undo stack forgets the oldest snapshot and keeps the
      rest in order. */
  lemma SaveEvictsOldest(s: Session)
    requires |s.undo| == MAX_UNDO
    ensures |Save(s).undo| == MAX_UNDO
    ensures Save(s).undo[0] == s.undo[1]
    ensures forall i :: 0 <= i < MAX_UNDO - 1 ==> Save(s).undo[i] == s.undo[i + 1]
  {
  }

  /** The edits gs applied one after the other. */
  function EditAll(s: Session, gs: seq<Graph>): (r: Session)
    ensures |s.undo| + |gs| <= MAX_UNDO ==> |r.undo| == |s.undo| + |gs|
    decreases |gs|
  {
    if gs == [] then s else EditAll(Edit(s, gs[0]), gs[1..])
  }

  /** Undo pressed n times. */
  function UndoTimes(s: Session, n: nat): Session
    decreases n
  {
    if n == 0 then s else UndoTimes(Undo(s), n - 1)
  }

  /** While no snapshot is evicted, undoing as many times as there were edits
      returns to the graph and the undo stack from before the edits. */
  lemma {:induction false} UndoAllEdits(s: Session, gs: seq<Graph>)
    requires |s.undo| + |gs| <= MAX_UNDO
    ensures UndoTimes(EditAll(s, gs), |gs|).live == s.live
    ensures UndoTimes(EditAll(s, gs), |gs|).undo == s.undo
    decreases |gs|
  {
    if gs != [] {
      var e := Edit(s, gs[0]);
      UndoAllEdits(e, gs[1..]);
      var mid := UndoTimes(EditAll(e, gs[1..]), |gs| - 1);
      assert mid.live == gs[0] && mid.undo == s.undo + [s.live];
      UndoTimesSplit(EditAll(s, gs), |gs| - 1);
      assert (s.undo + [s.live])[..|s.undo|] == s.undo;
    }
  }

  /** Undoing n + 1 times is undoing n times and then once more. */
  lemma {:induction false} UndoTimesSplit(s: Session, n: nat)
    ensures UndoTimes(s, n + 1) == Undo(UndoTimes(s, n))
    decreases n
  {
    if n > 0 {
      UndoTimesSplit(Undo(s), n - 1);
    }
  }
}
