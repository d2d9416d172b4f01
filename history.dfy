/** The canvas's local undo/redo history: a list of snapshots (data URLs) and
    a step pointer to the snapshot on screen. Restoring a snapshot onto the
    canvas is modelled as assigning it to `image` at once. */
module History {
  import Sequences

  const MaxHistory: nat := 50

  /** The list `saveState` leaves: the snapshots up to the current step, the
      new snapshot after them, and the oldest dropped if that is one too many. */
  function Saved(entries: seq<string>, step: int, snapshot: string): (r: seq<string>)
    requires -1 <= step < |entries|
    ensures |entries| <= MaxHistory ==> |r| <= MaxHistory
    ensures |r| > 0 && r[|r| - 1] == snapshot
    ensures |r| == if step + 2 > MaxHistory then step + 1 else step + 2
    // the redo tail beyond the old step is gone: all but the last entry come
    // from entries[..step + 1], in order
    ensures r[..|r| - 1] == entries[step + 2 - |r|..step + 1]
  {
    var kept := entries[..step + 1];
    var r := Sequences.AppendCapped(kept, snapshot, MaxHistory);
    assert r[..|r| - 1] == (kept + [snapshot])[|kept| + 1 - |r|..|kept|];
    r
  }

  /** Undo right after a save goes back to the snapshot that was current
      before it. */
  lemma UndoAfterSave(entries: seq<string>, step: int, snapshot: string)
    requires 0 <= step < |entries| <= MaxHistory
    ensures |Saved(entries, step, snapshot)| >= 2
    ensures Saved(entries, step, snapshot)[|Saved(entries, step, snapshot)| - 2] == entries[step]
  {
    var r := Saved(entries, step, snapshot);
    Sequences.AppendCappedBound(entries[..step + 1], snapshot, MaxHistory);
    assert r[..|r| - 1][|r| - 2] == r[|r| - 2];
  }

  class CanvasHistory {
    var entries: seq<string>
    var step: int
    /** What the canvas shows. */
    var image: string

    ghost predicate Valid()
      reads this
    {
      -1 <= step < |entries| <= MaxHistory
    }

    constructor (initial: string)
      ensures Valid() && entries == [] && step == -1 && image == initial
    {
      entries, step, image := [], -1, initial;
    }

    /** saveState: snapshots the canvas after the current step. */
    method SaveState()
      requires Valid()
      modifies this
      ensures Valid()
      ensures entries == Saved(old(entries), old(step), old(image))
      ensures step == |entries| - 1 && entries[step] == image
      ensures image == old(image)
    {
      var h := Saved(entries, step, image);
      entries, step := h, |h| - 1;
    }

    /** undo: steps back and shows that snapshot, unless at the first one. */
    method Undo()
      requires Valid()
      modifies this
      ensures Valid() && entries == old(entries)
      ensures old(step) <= 0 ==> step == old(step) && image == old(image)
      ensures old(step) > 0 ==> step == old(step) - 1 && image == entries[step]
    {
      if step <= 0 {
        return;
      }
      var newStep := step - 1;
      image := entries[newStep];
      step := newStep;
    }

    /** redo: steps forward and shows that snapshot, unless at the last one. */
    method Redo()
      requires Valid()
      modifies this
      ensures Valid() && entries == old(entries)
      ensures old(step) >= |entries| - 1 ==> step == old(step) && image == old(image)
      ensures old(step) < |entries| - 1 ==> step == old(step) + 1 && image == entries[step]
    {
      if step >= |entries| - 1 {
        return;
      }
      var newStep := step + 1;
      image := entries[newStep];
      step := newStep;
    }
  }

  /** Undo followed by redo returns to the same step and shows the same
      snapshot it showed before, when the canvas was showing that snapshot. */
  method UndoThenRedo(h: CanvasHistory)
    requires h.Valid() && h.step > 0 && h.image == h.entries[h.step]
    modifies h
    ensures h.Valid() && h.entries == old(h.entries)
    ensures h.step == old(h.step) && h.image == old(h.image)
  {
    h.Undo();
    h.Redo();
  }
}
