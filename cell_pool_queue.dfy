/**
  The pool queue system: every cell entity whose `PendingDequeue` flag is
  enabled is appended to the pool queue, in query order, and a command buffer
  disables the flag; the buffer is played back after the pass.
 */
module CellPoolQueueSystem {
  import opened Vectors
  import opened CellWorld

  /** The pass runs over `CellTag` entities with `PendingDequeue` enabled. */
  predicate InQuery(cells: map<Entity, Cell>, e: Entity)
  {
    e in cells && cells[e].cellTag && cells[e].pendingDequeue
  }

  /** The entities of `order` that the pass enqueues, in order. */
  function Pending(cells: map<Entity, Cell>, order: seq<Entity>): seq<Entity>
  {
    if order == [] then []
    else
      var last := order[|order| - 1];
      Pending(cells, order[..|order| - 1]) + (if InQuery(cells, last) then [last] else [])
  }

  /** The cells after playback of the buffer that disables `PendingDequeue` on each of `es`. */
  function Cleared(cells: map<Entity, Cell>, es: seq<Entity>): map<Entity, Cell>
  {
    map e | e in cells :: if e in es then cells[e].(pendingDequeue := false) else cells[e]
  }

  /** An entity is enqueued exactly when it is listed and in the query. */
  lemma {:induction false} PendingContents(cells: map<Entity, Cell>, order: seq<Entity>)
    ensures forall e :: e in Pending(cells, order) <==> e in order && InQuery(cells, e)
    decreases |order|
  {
    if order != [] {
      PendingContents(cells, order[..|order| - 1]);
      assert order == order[..|order| - 1] + [order[|order| - 1]];
    }
  }

  /** With no entity listed twice, none is enqueued twice. */
  lemma {:induction false} PendingOnce(cells: map<Entity, Cell>, order: seq<Entity>)
    requires forall i, j | 0 <= i < j < |order| :: order[i] != order[j]
    ensures forall i, j | 0 <= i < j < |Pending(cells, order)| :: Pending(cells, order)[i] != Pending(cells, order)[j]
    decreases |order|
  {
    if order != [] {
      var init := order[..|order| - 1];
      var last := order[|order| - 1];
      PendingOnce(cells, init);
      PendingContents(cells, init);
      var prev := Pending(cells, init);
      var all := Pending(cells, order);
      if InQuery(cells, last) {
        assert last !in init;
        forall i, j | 0 <= i < j < |all| ensures all[i] != all[j] {
          assert all[i] == prev[i] && prev[i] in prev;
        }
      }
    }
  }

  /** Playback disables the flag of the enqueued cells and changes nothing else. */
  lemma ClearedFrame(cells: map<Entity, Cell>, order: seq<Entity>)
    ensures Cleared(cells, Pending(cells, order)).Keys == cells.Keys
    ensures forall e | e in cells && !(e in order && InQuery(cells, e)) :: Cleared(cells, Pending(cells, order))[e] == cells[e]
    ensures forall e | e in cells && e in order && InQuery(cells, e) ::
      Cleared(cells, Pending(cells, order))[e] == cells[e].(pendingDequeue := false)
  {
    PendingContents(cells, order);
  }

  /** After playback, a second pass over the same entities enqueues nothing. */
  lemma SecondPassEnqueuesNothing(cells: map<Entity, Cell>, order: seq<Entity>)
    ensures Pending(Cleared(cells, Pending(cells, order)), order) == []
  {
    var after := Cleared(cells, Pending(cells, order));
    PendingContents(cells, order);
    PendingContents(after, order);
    assert forall e :: e !in Pending(after, order);
    assert |Pending(after, order)| == 0 || Pending(after, order)[0] in Pending(after, order);
  }

  /** Clearing the flag moves no cell, so the map invariant survives playback. */
  lemma ClearedKeepsMap(m: map<Int3, Entity>, cells: map<Entity, Cell>, es: seq<Entity>)
    requires MapConsistent(m, cells)
    ensures MapConsistent(m, Cleared(cells, es))
  {
  }

  /** Disabling one more flag. */
  lemma ClearedStep(cells: map<Entity, Cell>, es: seq<Entity>, e: Entity)
    ensures Cleared(cells, es + [e]) == if e in cells then Cleared(cells, es)[e := Cleared(cells, es)[e].(pendingDequeue := false)] else Cleared(cells, es)
  {
    assert forall x :: x in es + [e] <==> x in es || x == e;
  }

  /** The `foreach` of `OnUpdate`: enqueues the query in order and records the flags to disable. */
  method EnqueuePending(w: World, order: seq<Entity>) returns (ecb: seq<Entity>)
    modifies w`poolQueue
    ensures w.poolQueue == old(w.poolQueue) + Pending(w.cells, order)
    ensures ecb == Pending(w.cells, order)
  {
    ecb := [];
    for i := 0 to |order|
      invariant w.poolQueue == old(w.poolQueue) + Pending(w.cells, order[..i])
      invariant ecb == Pending(w.cells, order[..i])
    {
      assert order[..i + 1][..i] == order[..i];
      var e := order[i];
      if e in w.cells && w.cells[e].cellTag && w.cells[e].pendingDequeue {
        w.poolQueue := w.poolQueue + [e];
        ecb := ecb + [e];
      }
    }
    assert order[..|order|] == order;
  }

  /** Playback of the buffer: disables `PendingDequeue` on each recorded entity. */
  method PlaybackDisable(w: World, ecb: seq<Entity>)
    modifies w`cells
    ensures w.cells == Cleared(old(w.cells), ecb)
  {
    ghost var cells0 := w.cells;
    for j := 0 to |ecb|
      invariant w.cells == Cleared(cells0, ecb[..j])
    {
      var e := ecb[j];
      assert ecb[..j + 1] == ecb[..j] + [e];
      ClearedStep(cells0, ecb[..j], e);
      if e in w.cells {
        w.cells := w.cells[e := w.cells[e].(pendingDequeue := false)];
      }
    }
    assert ecb[..|ecb|] == ecb;
  }

  /**
    `OnUpdate`: the queue keeps its old contents in front and gains the
    pending cells of `order` at the back; their flags are disabled, and every
    other cell is untouched.
   */
  method PoolQueueUpdate(w: World, order: seq<Entity>)
    requires w.Valid()
    modifies w`poolQueue, w`cells
    ensures w.Valid()
    ensures w.poolQueue == old(w.poolQueue) + Pending(old(w.cells), order)
    ensures w.cells == Cleared(old(w.cells), Pending(old(w.cells), order))
  {
    var ecb := EnqueuePending(w, order);
    ClearedKeepsMap(w.cellMap, w.cells, ecb);
    PlaybackDisable(w, ecb);
  }
}
