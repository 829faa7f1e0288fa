/**
  The spaceship finalization system: it sums the impulse buffers of all
  spaceship temporary cells into one vector, empties each buffer after reading
  it, and writes the sum into the `SpaceshipForceFeedback` singleton,
  replacing whatever it held.
 */
module SpaceshipFinalizationSystem {
  import opened Vectors
  import opened CellWorld

  /** The query: entities with `SpaceshipTempCellTag` (every cell carries an impulse buffer). */
  predicate InQuery(cells: map<Entity, Cell>, e: Entity)
  {
    e in cells && cells[e].spaceshipTempCell
  }

  /** The impulses read, buffer after buffer, in the order of the entity array. */
  function Collected(cells: map<Entity, Cell>, order: seq<Entity>): seq<Vec3>
  {
    if order == [] then []
    else
      var last := order[|order| - 1];
      Collected(cells, order[..|order| - 1]) + (if InQuery(cells, last) then cells[last].impulses else [])
  }

  /** The cells with the buffers of the temporary cells of `order` emptied. */
  function Cleared(cells: map<Entity, Cell>, order: seq<Entity>): map<Entity, Cell>
  {
    map e | e in cells :: if e in order && InQuery(cells, e) then cells[e].(impulses := []) else cells[e]
  }

  /** Summing two runs of impulses one after the other adds their sums. */
  lemma {:induction false} SumVAppend(a: seq<Vec3>, b: seq<Vec3>)
    ensures SumV(a + b) == Add(SumV(a), SumV(b))
    decreases |b|
  {
    if b == [] {
      assert a + b == a;
    } else {
      assert (a + b)[..|a + b| - 1] == a + b[..|b| - 1];
      SumVAppend(a, b[..|b| - 1]);
    }
  }

  /** With no temporary cell among the entities, nothing is collected and the feedback is zero. */
  lemma {:induction false} NoTempCellsNoFeedback(cells: map<Entity, Cell>, order: seq<Entity>)
    requires forall i | 0 <= i < |order| :: !InQuery(cells, order[i])
    ensures Collected(cells, order) == [] && SumV(Collected(cells, order)) == Zero
    decreases |order|
  {
    if order != [] {
      NoTempCellsNoFeedback(cells, order[..|order| - 1]);
    }
  }

  /** Every impulse of every temporary cell's buffer is collected, and nothing else. */
  lemma {:induction false} CollectedContents(cells: map<Entity, Cell>, order: seq<Entity>)
    ensures forall v | v in Collected(cells, order) :: exists e | e in order && InQuery(cells, e) :: v in cells[e].impulses
    ensures forall e, v | e in order && InQuery(cells, e) && v in cells[e].impulses :: v in Collected(cells, order)
    decreases |order|
  {
    if order != [] {
      var init := order[..|order| - 1];
      var last := order[|order| - 1];
      CollectedContents(cells, init);
      assert order == init + [last];
    }
  }

  /** After the pass, the buffers read are empty and every other cell is as it was. */
  lemma ClearedFrame(cells: map<Entity, Cell>, order: seq<Entity>)
    ensures Cleared(cells, order).Keys == cells.Keys
    ensures forall e | e in order && InQuery(cells, e) :: Cleared(cells, order)[e] == cells[e].(impulses := [])
    ensures forall e | e in cells && !(e in order && InQuery(cells, e)) :: Cleared(cells, order)[e] == cells[e]
  {
  }

  /** Emptying impulse buffers moves no cell, so the map invariant survives. */
  lemma ClearedKeepsMap(m: map<Int3, Entity>, cells: map<Entity, Cell>, order: seq<Entity>)
    requires MapConsistent(m, cells)
    ensures MapConsistent(m, Cleared(cells, order))
  {
  }

  /** The inner `foreach`: adds the buffer's impulses to `total`, front to back. */
  method AddImpulses(total: Vec3, buffer: seq<Vec3>) returns (r: Vec3)
    ensures r == Add(total, SumV(buffer))
  {
    r := total;
    for j := 0 to |buffer|
      invariant r == Add(total, SumV(buffer[..j]))
    {
      assert buffer[..j + 1][..j] == buffer[..j];
      r := Add(r, buffer[j]);
    }
    assert buffer[..|buffer|] == buffer;
  }

  /** Adding a cell's buffer to the running total. */
  lemma CollectStep(cells: map<Entity, Cell>, order: seq<Entity>, i: nat)
    requires i < |order|
    ensures Collected(cells, order[..i + 1])
         == Collected(cells, order[..i]) + (if InQuery(cells, order[i]) then cells[order[i]].impulses else [])
  {
    assert order[..i + 1][..i] == order[..i];
  }

  /** Emptying one more buffer. */
  lemma ClearStep(cells: map<Entity, Cell>, order: seq<Entity>, i: nat)
    requires i < |order|
    ensures Cleared(cells, order[..i + 1])
         == if InQuery(cells, order[i]) then Cleared(cells, order[..i])[order[i] := cells[order[i]].(impulses := [])]
            else Cleared(cells, order[..i])
  {
    assert order[..i + 1] == order[..i] + [order[i]];
  }

  /**
    `OnUpdate` over the entity array `order` of the query, which lists each
    entity once: the feedback becomes the sum of every impulse buffered in a
    temporary cell, whatever it held before, and those buffers are emptied.
   */
  method FinalizationUpdate(w: World, order: seq<Entity>)
    requires w.Valid()
    requires forall i, j | 0 <= i < j < |order| :: order[i] != order[j]
    modifies w`cells, w`feedback
    ensures w.Valid()
    ensures w.feedback == SumV(Collected(old(w.cells), order))
    ensures w.cells == Cleared(old(w.cells), order)
  {
    ghost var cells0 := w.cells;
    ClearedKeepsMap(w.cellMap, cells0, order);
    var totalImpulse := Zero;
    for i := 0 to |order|
      invariant totalImpulse == SumV(Collected(cells0, order[..i]))
      invariant w.cells == Cleared(cells0, order[..i])
      invariant w.cellMap == old(w.cellMap)
    {
      var entity := order[i];
      CollectStep(cells0, order, i);
      ClearStep(cells0, order, i);
      assert entity !in order[..i];
      assert entity in w.cells ==> w.cells[entity] == cells0[entity];
      if entity in w.cells && w.cells[entity].spaceshipTempCell {
        var impulseBuffer := w.cells[entity].impulses;
        totalImpulse := AddImpulses(totalImpulse, impulseBuffer);
        SumVAppend(Collected(cells0, order[..i]), impulseBuffer);
        w.cells := w.cells[entity := w.cells[entity].(impulses := [])];
      } else {
        assert Collected(cells0, order[..i]) + [] == Collected(cells0, order[..i]);
      }
    }
    assert order[..|order|] == order;
    w.feedback := totalImpulse;
  }
}
