/** `handleDragEnd`: turning a drop reported by the drag surface into a new
    order of the visible columns. */
module ReorderEngine {
  import opened Wrappers
  import opened Sequences
  import opened ColumnStore

  /** Where a drag started or ended: the drop target's id and the slot
      index inside it. */
  datatype Location = Location(droppableId: string, index: nat)

  /** The drag surface's report at the end of a gesture; no destination
      when the column was not released over any drop target. */
  datatype DropResult = DropResult(source: Location, destination: Option<Location>)

  /** The position of the last column whose `key` is `id`, or None (the
      handler's `NaN` index) when there is none. */
  function LastKeyIndex(cols: seq<Column>, id: string): (r: Option<nat>)
    ensures r.None? <==> forall j :: 0 <= j < |cols| ==> cols[j].key != Some(id)
    ensures r.Some? ==> r.value < |cols| && cols[r.value].key == Some(id)
    ensures r.Some? ==> forall j :: r.value < j < |cols| ==> cols[j].key != Some(id)
    decreases |cols|
  {
    if |cols| == 0 then None
    else if cols[|cols| - 1].key == Some(id) then Some(|cols| - 1)
    else LastKeyIndex(cols[..|cols| - 1], id)
  }

  /** In a list with unique keys, the lookup of a column's key finds that column. */
  lemma LookupFindsColumn(cols: seq<Column>, i: nat)
    requires UniqueKeys(cols) && i < |cols| && cols[i].key.Some?
    ensures LastKeyIndex(cols, cols[i].key.value) == Some(i)
  {
    var r := LastKeyIndex(cols, cols[i].key.value);
    assert r.Some?;
    if r.value < i {
    } else if r.value > i {
      assert false;
    }
  }

  /** The scan over the visible list: one pass recording, for each column,
      its index as the source when its key is the source id, otherwise as
      the destination when its key is the destination id. */
  method ScanColumns(cols: seq<Column>, srcId: string, destId: string) returns (srcIdx: Option<nat>, destIdx: Option<nat>)
    ensures srcIdx == LastKeyIndex(cols, srcId)
    ensures destIdx == if srcId == destId then None else LastKeyIndex(cols, destId)
  {
    srcIdx, destIdx := None, None;
    for index := 0 to |cols|
      invariant srcIdx == LastKeyIndex(cols[..index], srcId)
      invariant destIdx == if srcId == destId then None else LastKeyIndex(cols[..index], destId)
    {
      assert cols[..index + 1][..index] == cols[..index];
      if cols[index].key == Some(srcId) {
        srcIdx := Some(index);
      } else if cols[index].key == Some(destId) {
        destIdx := Some(index);
      }
    }
    assert cols[..|cols|] == cols;
  }

  /** The index handed to `Move` for a source column at `s` dropped on the
      column at `t`. Slot 0 of the destination means "before the target
      column", any other slot "after it"; on a rightward move the index is
      one less, compensating for the shift that removing the source causes. */
  function Landing(s: nat, t: nat, slot: nat): (p: nat)
    requires s != t
    ensures s < t ==> s <= p <= t
    ensures t < s ==> t <= p <= s
  {
    if s < t then (if slot == 0 then t - 1 else t) else (if slot == 0 then t else t + 1)
  }

  /** The comparison of the two found positions and the relocation it
      selects. A missing position (the handler's `NaN` index) fails both
      comparisons, as do equal positions, and the list is kept. */
  function Relocate<T>(visible: seq<T>, srcAt: Option<nat>, destAt: Option<nat>, slot: nat): (r: seq<T>)
    requires srcAt.Some? ==> srcAt.value < |visible|
    requires destAt.Some? ==> destAt.value < |visible|
    ensures |r| == |visible|
    ensures multiset(r) == multiset(visible)
  {
    match (srcAt, destAt)
    case (Some(s), Some(t)) =>
      if s != t then Move(visible, s, Landing(s, t, slot)) else visible
    case _ => visible
  }

  /** `handleDragEnd` on the visible list: drops without a destination or
      back onto their own droppable are ignored; otherwise both ids are
      looked up by `key` and the source column relocated. */
  function Reorder(visible: seq<Column>, drop: DropResult): (r: seq<Column>)
    ensures |r| == |visible|
    ensures multiset(r) == multiset(visible)
  {
    match drop.destination
    case None => visible
    case Some(dest) =>
      if drop.source.droppableId == dest.droppableId then visible
      else Relocate(visible, LastKeyIndex(visible, drop.source.droppableId), LastKeyIndex(visible, dest.droppableId), dest.index)
  }

  /** A drop with no destination, or back onto the droppable it came from,
      changes nothing. */
  lemma DegenerateDropIsNoOp(visible: seq<Column>, drop: DropResult)
    requires drop.destination.None? || drop.destination.value.droppableId == drop.source.droppableId
    ensures Reorder(visible, drop) == visible
  {
  }

  /** When no visible column carries the source id, or none carries the
      destination id, as its `key`, the list is returned unchanged. */
  lemma UnmatchedIdIsNoOp(visible: seq<Column>, drop: DropResult)
    requires drop.destination.Some?
    requires (forall j :: 0 <= j < |visible| ==> visible[j].key != Some(drop.source.droppableId))
          || (forall j :: 0 <= j < |visible| ==> visible[j].key != Some(drop.destination.value.droppableId))
    ensures Reorder(visible, drop) == visible
  {
  }

  /** The drop of the column at `s` onto the drop target of the column at
      `t`, released in `slot`; drop target ids are the columns' `dataIndex`. */
  function DropOnto(visible: seq<Column>, s: nat, t: nat, slot: nat, srcSlot: nat): DropResult
    requires s < |visible| && t < |visible|
    requires visible[s].dataIndex.Some? && visible[t].dataIndex.Some?
  {
    DropResult(Location(visible[s].dataIndex.value, srcSlot), Some(Location(visible[t].dataIndex.value, slot)))
  }

  /** In a well-keyed list, a drop of column `s` onto column `t` is the
      relocation of `s` to `Landing(s, t, slot)`. */
  lemma WellKeyedDropIsMove(visible: seq<Column>, s: nat, t: nat, slot: nat, srcSlot: nat)
    requires WellKeyed(visible)
    requires s < |visible| && t < |visible| && s != t
    ensures visible[s].dataIndex.Some? && visible[t].dataIndex.Some?
    ensures Landing(s, t, slot) < |visible|
    ensures Reorder(visible, DropOnto(visible, s, t, slot, srcSlot)) == Move(visible, s, Landing(s, t, slot))
  {
    assert Identified(visible[s]) && Identified(visible[t]) by {
      assert visible[s] in visible && visible[t] in visible;
    }
    var srcId, destId := IdOf(visible[s]), IdOf(visible[t]);
    assert srcId != destId by {
      if s < t {
        assert visible[s].key != visible[t].key;
      } else {
        assert visible[t].key != visible[s].key;
      }
    }
    LookupFindsColumn(visible, s);
    LookupFindsColumn(visible, t);
    var drop := DropOnto(visible, s, t, slot, srcSlot);
    assert drop.source.droppableId == srcId;
    assert drop.destination == Some(Location(destId, slot));
    assert LastKeyIndex(visible, srcId) == Some(s);
    assert LastKeyIndex(visible, destId) == Some(t);
  }

  /** Position `p` of `r` holds `moved`, the rest of `r` is `others` in
      order, and `target` is the neighbour right of `moved` for slot 0 and
      the neighbour left of it otherwise. */
  predicate LandsBeside<T(==)>(r: seq<T>, p: nat, moved: T, others: seq<T>, target: T, slot: nat)
  {
    && p < |r| && r[p] == moved && Without(r, p) == others
    && if slot == 0 then p + 1 < |r| && r[p + 1] == target else 0 < p && r[p - 1] == target
  }

  /** The relocation `Landing` describes puts the element at `s`
      immediately before the one at `t` for slot 0 and immediately after it
      otherwise, and leaves all other elements in their order. */
  lemma LandingIsBesideTarget<T>(visible: seq<T>, s: nat, t: nat, slot: nat)
    requires s < |visible| && t < |visible| && s != t
    ensures Landing(s, t, slot) < |visible|
    ensures LandsBeside(Move(visible, s, Landing(s, t, slot)), Landing(s, t, slot), visible[s], Without(visible, s), visible[t], slot)
  {
    MoveMatchesIndexMap(visible, s, Landing(s, t, slot));
    MoveKeepsOthersInOrder(visible, s, Landing(s, t, slot));
  }

  /** Relocation correctness: in a well-keyed list, dropping column `s` on
      column `t` puts it immediately before `t` for slot 0 and immediately
      after `t` for any other slot; removing the moved column from the
      result leaves the other columns in their old order. */
  lemma DropLandsBesideTarget(visible: seq<Column>, s: nat, t: nat, slot: nat, srcSlot: nat)
    requires WellKeyed(visible)
    requires s < |visible| && t < |visible| && s != t
    ensures visible[s].dataIndex.Some? && visible[t].dataIndex.Some?
    ensures exists p :: LandsBeside(Reorder(visible, DropOnto(visible, s, t, slot, srcSlot)), p, visible[s], Without(visible, s), visible[t], slot)
  {
    WellKeyedDropIsMove(visible, s, t, slot, srcSlot);
    LandingIsBesideTarget(visible, s, t, slot);
  }

  /** A relocation keeps every column identified and keys unique. */
  lemma MovePreservesWellKeyed(visible: seq<Column>, from: nat, to: nat)
    requires WellKeyed(visible) && from < |visible| && to < |visible|
    ensures WellKeyed(Move(visible, from, to))
  {
    var r := Move(visible, from, to);
    MoveMatchesIndexMap(visible, from, to);
    assert forall c :: c in r ==> c in multiset(visible);
    forall i, j | 0 <= i < j < |r|
      ensures r[i].key != r[j].key
    {
      MovedFromInjective(from, to, |r|, i, j);
      var a, b := MovedFrom(from, to, i), MovedFrom(from, to, j);
      if a < b {
        assert visible[a].key != visible[b].key;
      } else {
        assert visible[b].key != visible[a].key;
      }
    }
  }

  /** Reordering a well-keyed list gives a well-keyed list. */
  lemma ReorderPreservesWellKeyed(visible: seq<Column>, drop: DropResult)
    requires WellKeyed(visible)
    ensures WellKeyed(Reorder(visible, drop))
  {
    if drop.destination.Some? && drop.source.droppableId != drop.destination.value.droppableId {
      var dest := drop.destination.value;
      var srcAt, destAt := LastKeyIndex(visible, drop.source.droppableId), LastKeyIndex(visible, dest.droppableId);
      if srcAt.Some? && destAt.Some? && srcAt.value != destAt.value {
        MovePreservesWellKeyed(visible, srcAt.value, Landing(srcAt.value, destAt.value, dest.index));
      }
    }
  }
}
