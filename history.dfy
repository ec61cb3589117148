/**
 * The editor's own history: two lists of plain-text checkpoints.  The last
 * element of each list is its top.
 */
module History {

  datatype Stacks = Stacks(undo: seq<string>, redo: seq<string>)

  function Size(h: Stacks): nat {
    |h.undo| + |h.redo|
  }

  function Last(s: seq<string>): string
    requires s != []
  {
    s[|s| - 1]
  }

  function DropLast(s: seq<string>): seq<string>
    requires s != []
  {
    s[..|s| - 1]
  }

  /** A recorded change: the current text pushed, the redo list emptied. */
  function Record(h: Stacks, text: string): (r: Stacks)
    ensures !CanRedo(r) && r.undo != [] && Last(r.undo) == text && DropLast(r.undo) == h.undo
  {
    Stacks(h.undo + [text], [])
  }

  predicate CanUndo(h: Stacks) {
    |h.undo| > 1
  }

  predicate CanRedo(h: Stacks) {
    h.redo != []
  }

  /**
   * The top of the undo list moves to the redo list; the new top is the text
   * shown.  At least one checkpoint stays, and with a single checkpoint
   * nothing happens.
   */
  function Undo(h: Stacks): (r: Stacks)
    ensures CanUndo(h) ==>
      |r.undo| == |h.undo| - 1 >= 1 && |r.redo| == |h.redo| + 1 && Last(r.redo) == Last(h.undo)
    ensures !CanUndo(h) ==> r == h
  {
    if CanUndo(h) then
      assert DropLast(h.undo) + [Last(h.undo)] == h.undo;
      Stacks(DropLast(h.undo), h.redo + [Last(h.undo)])
    else h
  }

  /**
   * The top of the redo list moves back to the undo list and is the text
   * shown; with nothing to redo nothing happens.
   */
  function Redo(h: Stacks): (r: Stacks)
    ensures CanRedo(h) ==>
      |r.undo| == |h.undo| + 1 && |r.redo| == |h.redo| - 1 && Last(r.undo) == Last(h.redo)
    ensures !CanRedo(h) ==> r == h
  {
    if CanRedo(h) then
      assert DropLast(h.redo) + [Last(h.redo)] == h.redo;
      Stacks(h.undo + [Last(h.redo)], DropLast(h.redo))
    else h
  }

  /** Neither step creates nor loses a checkpoint. */
  lemma StepsPreserveSize(h: Stacks)
    ensures Size(Undo(h)) == Size(h) && Size(Redo(h)) == Size(h)
  {
  }

  /** Redo right after an undo restores both lists and shows the undone text again. */
  lemma UndoThenRedo(h: Stacks)
    requires CanUndo(h)
    ensures Redo(Undo(h)) == h
    ensures Last(Redo(Undo(h)).undo) == Last(h.undo)
  {
    assert DropLast(h.undo) + [Last(h.undo)] == h.undo;
  }

  /** Undo right after a redo restores both lists. */
  lemma RedoThenUndo(h: Stacks)
    requires CanRedo(h) && h.undo != []
    ensures Undo(Redo(h)) == h
  {
    assert DropLast(h.redo) + [Last(h.redo)] == h.redo;
  }

  function UndoN(h: Stacks, k: nat): Stacks {
    if k == 0 then h else Undo(UndoN(h, k - 1))
  }

  function RedoN(h: Stacks, k: nat): Stacks
    decreases k
  {
    if k == 0 then h else RedoN(Redo(h), k - 1)
  }

  lemma {:induction false} UndoNLength(h: Stacks, k: nat)
    requires |h.undo| > k
    ensures |UndoN(h, k).undo| == |h.undo| - k
  {
    if k > 0 {
      UndoNLength(h, k - 1);
    }
  }

  lemma RedoAfterUndo(g: Stacks, k: nat)
    requires CanUndo(g) && k > 0
    ensures RedoN(Undo(g), k) == RedoN(g, k - 1)
  {
    UndoThenRedo(g);
  }

  /** Any number of undos followed by as many redos returns to the same history. */
  lemma {:induction false} UndoRedoN(h: Stacks, k: nat)
    requires |h.undo| > k
    ensures RedoN(UndoN(h, k), k) == h
  {
    if k > 0 {
      var g := UndoN(h, k - 1);
      UndoNLength(h, k - 1);
      RedoAfterUndo(g, k);
      UndoRedoN(h, k - 1);
    }
  }
}
