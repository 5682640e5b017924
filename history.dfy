/**
 * The undo/redo history of src/hooks/useFileTree.js as values: the list of
 * recorded trees, the index of the current one, and what recording, undoing
 * and redoing do to them. The hook's class keeps these two values as fields
 * and updates them through the functions below. The entries are generic:
 * the hook stores trees in them.
 */
module History {
  /** At most this many trees are kept. */
  const MaxHistoryLength: nat := 30

  /** The recorded trees, oldest first, and the index of the current one. */
  datatype Timeline<T> = Timeline(states: seq<T>, index: int)

  /** What the hook keeps true: between one and 30 trees, and the index names one of them. */
  predicate Valid<T>(h: Timeline<T>)
  {
    1 <= |h.states| <= MaxHistoryLength && 0 <= h.index < |h.states|
  }

  /** The history right after the hook starts, or after an import or a reset. */
  function Start<T>(t: T): (h: Timeline<T>)
    ensures Valid(h) && h.states[h.index] == t
  {
    Timeline([t], 0)
  }

  /** The last `MaxHistoryLength` entries of `s`, or all of them when there are fewer. */
  function Newest<T>(s: seq<T>): (r: seq<T>)
    ensures |r| <= MaxHistoryLength
    ensures |r| == if |s| > MaxHistoryLength then MaxHistoryLength else |s|
    ensures r == s[|s| - |r|..]
  {
    if |s| > MaxHistoryLength then s[|s| - MaxHistoryLength..] else s
  }

  /**
   * setTreeDataWithHistory: the entries after the current one are discarded,
   * the new tree is appended and becomes current, and when that makes 31
   * entries the oldest is dropped.
   */
  function Record<T>(h: Timeline<T>, t: T): (r: Timeline<T>)
    requires 0 <= h.index < |h.states|
    ensures |h.states| <= MaxHistoryLength ==> r.states == Newest(h.states[..h.index + 1] + [t])
    ensures 0 <= r.index == |r.states| - 1 && r.states[r.index] == t
    ensures |h.states| <= MaxHistoryLength ==> Valid(r)
  {
    var kept := h.states[..h.index + 1] + [t];
    if |kept| > MaxHistoryLength then Timeline(kept[1..], |kept| - 2)
    else Timeline(kept, |kept| - 1)
  }

  /** canUndo: there is an earlier tree. */
  predicate CanUndo<T>(h: Timeline<T>)
  {
    h.index > 0
  }

  /** canRedo: there is a later tree. */
  predicate CanRedo<T>(h: Timeline<T>)
  {
    h.index < |h.states| - 1
  }

  /** undo: step back to the previous tree when there is one. */
  function Undo<T>(h: Timeline<T>): (r: Timeline<T>)
    ensures r.states == h.states
    ensures CanUndo(h) ==> r.index == h.index - 1
    ensures !CanUndo(h) ==> r == h
    ensures Valid(h) ==> Valid(r)
  {
    if CanUndo(h) then h.(index := h.index - 1) else h
  }

  /** redo: step forward to the next tree when there is one. */
  function Redo<T>(h: Timeline<T>): (r: Timeline<T>)
    ensures r.states == h.states
    ensures CanRedo(h) ==> r.index == h.index + 1
    ensures !CanRedo(h) ==> r == h
    ensures Valid(h) ==> Valid(r)
  {
    if CanRedo(h) then h.(index := h.index + 1) else h
  }

  /** After recording there is nothing left to redo, and there is always something to undo. */
  lemma RecordClearsRedo<T>(h: Timeline<T>, t: T)
    requires Valid(h)
    ensures Valid(Record(h, t))
    ensures !CanRedo(Record(h, t))
    ensures CanUndo(Record(h, t))
  {
  }

  /** Undo followed by redo, or redo followed by undo, comes back to where it started. */
  lemma UndoRedoRoundTrip<T>(h: Timeline<T>)
    requires Valid(h)
    ensures CanUndo(h) ==> CanRedo(Undo(h)) && Redo(Undo(h)) == h
    ensures CanRedo(h) ==> CanUndo(Redo(h)) && Undo(Redo(h)) == h
  {
  }

  /**
   * Undoing after a record returns to the tree that was current before it.
   * When the history was full, the bound drops the oldest entry, never that tree.
   */
  lemma UndoAfterRecord<T>(h: Timeline<T>, t: T)
    requires Valid(h)
    ensures Undo(Record(h, t)).states[Undo(Record(h, t)).index] == h.states[h.index]
  {
  }

  /** Recording each tree of `ts` in turn. */
  function RecordAll<T>(h: Timeline<T>, ts: seq<T>): (r: Timeline<T>)
    requires Valid(h)
    ensures Valid(r)
    decreases |ts|
  {
    if ts == [] then h
    else
      var before := RecordAll(h, ts[..|ts| - 1]);
      Record(before, ts[|ts| - 1])
  }

  /** Undoing `k` times. */
  function UndoTimes<T>(h: Timeline<T>, k: nat): (r: Timeline<T>)
    requires Valid(h)
    ensures Valid(r)
    ensures r.states == h.states
  {
    if k == 0 then h else Undo(UndoTimes(h, k - 1))
  }

  /** Keeping the newest entries before or after one more is appended comes to the same. */
  lemma NewestAppend<T>(s: seq<T>, t: T)
    ensures Newest(Newest(s) + [t]) == Newest(s + [t])
  {
    if |s| >= MaxHistoryLength {
      assert Newest(s) + [t] == s[|s| - MaxHistoryLength..] + [t];
      assert (s + [t])[|s| + 1 - MaxHistoryLength..] == (s[|s| - MaxHistoryLength..] + [t])[1..];
    }
  }

  lemma Snoc<T>(t0: T, ts: seq<T>)
    requires ts != []
    ensures [t0] + ts == ([t0] + ts[..|ts| - 1]) + [ts[|ts| - 1]]
  {
    assert ts == ts[..|ts| - 1] + [ts[|ts| - 1]];
  }

  /** One more record on a history that holds the newest entries of `s`, the last current, holds the newest of `s + [t]`. */
  lemma RecordNewest<T>(h: Timeline<T>, s: seq<T>, t: T)
    requires Valid(h) && h.states == Newest(s) && h.index == |h.states| - 1
    ensures Record(h, t).states == Newest(s + [t])
    ensures Record(h, t).index == |Newest(s + [t])| - 1
  {
    assert h.states[..h.index + 1] == h.states;
    NewestAppend(s, t);
  }

  /** Starting from one tree and recording more keeps exactly the newest 30 trees, the last one current. */
  lemma {:induction false} RecordAllKeepsNewest<T>(t0: T, ts: seq<T>)
    ensures RecordAll(Start(t0), ts).states == Newest([t0] + ts)
    ensures RecordAll(Start(t0), ts).index == |Newest([t0] + ts)| - 1
    decreases |ts|
  {
    if ts == [] {
      assert [t0] + ts == [t0];
    } else {
      var init := ts[..|ts| - 1];
      RecordAllKeepsNewest(t0, init);
      RecordNewest(RecordAll(Start(t0), init), [t0] + init, ts[|ts| - 1]);
      Snoc(t0, ts);
    }
  }

  /** Each undo steps back one entry, down to the oldest kept one. */
  lemma {:induction false} UndoTimesIndex<T>(h: Timeline<T>, k: nat)
    requires Valid(h)
    ensures UndoTimes(h, k).index == if k <= h.index then h.index - k else 0
  {
    if k > 0 {
      UndoTimesIndex(h, k - 1);
    }
  }

  /**
   * After 29 or more edits on top of a starting tree, 30 trees are kept, and
   * 29 undos reach the oldest kept one, the 30th tree from the end; a further
   * undo changes nothing.
   */
  lemma ManyEditsKeepThirty<T>(t0: T, ts: seq<T>)
    requires |ts| >= MaxHistoryLength - 1
    ensures var h := RecordAll(Start(t0), ts);
            var back := UndoTimes(h, MaxHistoryLength - 1);
            |h.states| == MaxHistoryLength && back.states[back.index] == ([t0] + ts)[|ts| + 1 - MaxHistoryLength] &&
            !CanUndo(back) && UndoTimes(h, MaxHistoryLength) == back
  {
    var h := RecordAll(Start(t0), ts);
    var all := [t0] + ts;
    RecordAllKeepsNewest(t0, ts);
    assert h.states == all[|all| - MaxHistoryLength..];
    UndoTimesIndex(h, MaxHistoryLength - 1);
    var back := UndoTimes(h, MaxHistoryLength - 1);
    assert back.index == 0;
  }

  /** After 40 edits, 29 undos reach the tree of the eleventh edit (`ts[10]`) and no further. */
  lemma FortyEditsKeepThirty<T>(t0: T, ts: seq<T>)
    requires |ts| == 40
    ensures var h := RecordAll(Start(t0), ts);
            |h.states| == MaxHistoryLength &&
            UndoTimes(h, 29).states[UndoTimes(h, 29).index] == ts[10] &&
            !CanUndo(UndoTimes(h, 29)) && UndoTimes(h, 30) == UndoTimes(h, 29)
  {
    ManyEditsKeepThirty(t0, ts);
    assert ([t0] + ts)[11] == ts[10];
  }
}
