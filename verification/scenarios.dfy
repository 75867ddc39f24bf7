/** The drags on a well-keyed list of four columns [A, B, C, D] (any such
    list), and one concrete list of columns that carry only a `dataIndex`. */
module Scenarios {
  import opened Wrappers
  import opened ColumnStore
  import opened Sequences
  import opened ReorderEngine

  function Drop(src: string, dest: string, slot: nat): DropResult
  {
    DropResult(Location(src, 0), Some(Location(dest, slot)))
  }

  /** Every relocation in a four-element list, written out position by position. */
  lemma MoveInFour<T>(v: seq<T>, from: nat, to: nat)
    requires |v| == 4 && from < 4 && to < 4
    ensures Move(v, from, to) == seq(4, k requires 0 <= k < 4 => v[MovedFrom(from, to, k)])
  {
    MoveMatchesIndexMap(v, from, to);
  }

  /** Drag A onto C, after it: [A, B, C, D] becomes [B, C, A, D]. */
  lemma DragRightAfter(v: seq<Column>)
    requires |v| == 4 && WellKeyed(v)
    ensures v[0].dataIndex.Some? && v[2].dataIndex.Some?
    ensures Reorder(v, DropOnto(v, 0, 2, 1, 0)) == [v[1], v[2], v[0], v[3]]
  {
    WellKeyedDropIsMove(v, 0, 2, 1, 0);
    assert Landing(0, 2, 1) == 2;
    MoveInFour(v, 0, 2);
  }

  /** Drag A onto C, before it: [A, B, C, D] becomes [B, A, C, D]. */
  lemma DragRightBefore(v: seq<Column>)
    requires |v| == 4 && WellKeyed(v)
    ensures v[0].dataIndex.Some? && v[2].dataIndex.Some?
    ensures Reorder(v, DropOnto(v, 0, 2, 0, 0)) == [v[1], v[0], v[2], v[3]]
  {
    WellKeyedDropIsMove(v, 0, 2, 0, 0);
    assert Landing(0, 2, 0) == 1;
    MoveInFour(v, 0, 1);
  }

  /** Drag D onto B, before it: [A, B, C, D] becomes [A, D, B, C]. */
  lemma DragLeftBefore(v: seq<Column>)
    requires |v| == 4 && WellKeyed(v)
    ensures v[3].dataIndex.Some? && v[1].dataIndex.Some?
    ensures Reorder(v, DropOnto(v, 3, 1, 0, 0)) == [v[0], v[3], v[1], v[2]]
  {
    WellKeyedDropIsMove(v, 3, 1, 0, 0);
    assert Landing(3, 1, 0) == 1;
    MoveInFour(v, 3, 1);
  }

  /** Drag D onto B, after it: [A, B, C, D] becomes [A, B, D, C]. */
  lemma DragLeftAfter(v: seq<Column>)
    requires |v| == 4 && WellKeyed(v)
    ensures v[3].dataIndex.Some? && v[1].dataIndex.Some?
    ensures Reorder(v, DropOnto(v, 3, 1, 1, 0)) == [v[0], v[1], v[3], v[2]]
  {
    WellKeyedDropIsMove(v, 3, 1, 1, 0);
    assert Landing(3, 1, 1) == 2;
    MoveInFour(v, 3, 2);
  }

  /** Drag B back onto B: nothing changes. */
  lemma DragOntoItself(v: seq<Column>, slot: nat)
    requires |v| == 4 && WellKeyed(v)
    ensures v[1].dataIndex.Some?
    ensures Reorder(v, DropOnto(v, 1, 1, slot, 0)) == v
  {
    assert v[1] in v;
  }

  /** Columns with a `dataIndex` but no `key`: the drop targets are
      addressed by "a" and "b", yet dragging A after B does nothing. */
  lemma KeylessDragIsIgnored()
    ensures var v := [Column(None, Some("a"), Content("A"), map[]), Column(None, Some("b"), Content("B"), map[])];
      Reorder(v, Drop("a", "b", 1)) == v
  {
  }
}
