/** The `SuperAntTable` component's column state: the canonical column list
    captured from the `columns` prop and the list currently shown, with one
    transition per event that changes it. */
module Table {
  import opened Wrappers
  import opened Sequences
  import opened ColumnStore
  import opened DragAdapter
  import opened ReorderEngine
  import opened VisibilityProjector

  /** `originalCols` is the canonical list; `columnsToShow` is what the table
      renders, with wrapped headers. */
  datatype TableState = TableState(originalCols: seq<Column>, columnsToShow: seq<Column>)

  /** The two user events that change the shown columns. */
  datatype Event = DragEnd(drop: DropResult) | Check(checked: seq<Column>)

  /** The shown columns, wrappers erased, are a rearrangement of a
      subsequence of the canonical list: nothing foreign, nothing twice more
      often than it is canonical. */
  ghost predicate Arranged(shown: seq<Column>, original: seq<Column>)
  {
    exists sub :: IsSubsequence(sub, original) && multiset(Erase(shown)) == multiset(sub)
  }

  ghost predicate Invariant(st: TableState)
  {
    && Arranged(st.columnsToShow, st.originalCols)
    && (forall c :: c in st.columnsToShow ==> Addressable(c))
    && (WellKeyed(st.originalCols) ==> WellKeyed(st.columnsToShow))
  }

  /** Mounting: the canonical list is the `columns` prop, and every column is
      shown, wrapped, in canonical order. */
  function Mount(columns: seq<Column>): (st: TableState)
    ensures st.originalCols == columns && Erase(st.columnsToShow) == columns
  {
    EraseWrap(columns);
    TableState(columns, Wrap(columns))
  }

  lemma MountEstablishesInvariant(columns: seq<Column>)
    ensures Invariant(Mount(columns))
  {
    var st := Mount(columns);
    SubsequenceReflexive(columns);
    assert forall c :: c in st.columnsToShow ==> Addressable(c);
    if WellKeyed(columns) {
      WrapPreservesWellKeyed(columns);
    }
  }

  /** A drag ending: the shown list is reordered; the canonical list stays. */
  function OnDragEnd(st: TableState, drop: DropResult): (st': TableState)
    ensures st'.originalCols == st.originalCols
    ensures multiset(st'.columnsToShow) == multiset(st.columnsToShow)
  {
    st.(columnsToShow := Reorder(st.columnsToShow, drop))
  }

  /** A picker change: the shown list is rebuilt, wrapped, from the canonical
      list; the previous shown list plays no part. */
  function OnCheck(st: TableState, checked: seq<Column>): (st': TableState)
    ensures st'.originalCols == st.originalCols
    ensures Erase(st'.columnsToShow) == Project(st.originalCols, checked)
  {
    var shown := Project(st.originalCols, checked);
    EraseWrap(shown);
    st.(columnsToShow := Wrap(shown))
  }

  /** A picker change establishes the invariant from any state. */
  lemma CheckEstablishesInvariant(st: TableState, checked: seq<Column>)
    ensures Invariant(OnCheck(st, checked))
  {
    var shown := Project(st.originalCols, checked);
    var st' := OnCheck(st, checked);
    assert forall c :: c in st'.columnsToShow ==> Addressable(c);
    if WellKeyed(st.originalCols) {
      ProjectPreservesWellKeyed(st.originalCols, checked);
      WrapPreservesWellKeyed(shown);
    }
  }

  /** A new `columns` prop: the memoised canonical list follows it, but the
      shown list, initialised only once, does not. */
  function OnColumnsProp(st: TableState, columns: seq<Column>): (st': TableState)
    ensures st'.originalCols == columns
    ensures st'.columnsToShow == st.columnsToShow
  {
    st.(originalCols := columns)
  }

  function Step(st: TableState, e: Event): TableState
  {
    match e
    case DragEnd(drop) => OnDragEnd(st, drop)
    case Check(checked) => OnCheck(st, checked)
  }

  function Run(st: TableState, events: seq<Event>): (st': TableState)
    ensures st'.originalCols == st.originalCols
    decreases |events|
  {
    if |events| == 0 then st else Run(Step(st, events[0]), events[1..])
  }

  /** The column lookup sees only keys, which erasing wrappers leaves alone. */
  lemma LookupIgnoresWrapping(cols: seq<Column>, id: string)
    ensures LastKeyIndex(Erase(cols), id) == LastKeyIndex(cols, id)
  {
    var e := Erase(cols);
    assert forall j :: 0 <= j < |cols| ==> e[j].key == cols[j].key;
    var a, b := LastKeyIndex(e, id), LastKeyIndex(cols, id);
    if a.Some? && b.Some? && a.value != b.value {
      assert false;
    }
  }

  /** Relocating and erasing wrappers can be done in either order. */
  lemma RelocateIgnoresWrapping(visible: seq<Column>, srcAt: Option<nat>, destAt: Option<nat>, slot: nat)
    requires srcAt.Some? ==> srcAt.value < |visible|
    requires destAt.Some? ==> destAt.value < |visible|
    ensures Erase(Relocate(visible, srcAt, destAt, slot)) == Relocate(Erase(visible), srcAt, destAt, slot)
  {
    if srcAt.Some? && destAt.Some? && srcAt.value != destAt.value {
      EraseMove(visible, srcAt.value, Landing(srcAt.value, destAt.value, slot));
    }
  }

  /** Reordering and erasing wrappers can be done in either order. */
  lemma ReorderIgnoresWrapping(visible: seq<Column>, drop: DropResult)
    ensures Erase(Reorder(visible, drop)) == Reorder(Erase(visible), drop)
  {
    if drop.destination.Some? && drop.source.droppableId != drop.destination.value.droppableId {
      var dest := drop.destination.value;
      LookupIgnoresWrapping(visible, drop.source.droppableId);
      LookupIgnoresWrapping(visible, dest.droppableId);
      RelocateIgnoresWrapping(visible, LastKeyIndex(visible, drop.source.droppableId), LastKeyIndex(visible, dest.droppableId), dest.index);
    }
  }

  /** A drag keeps the state invariant. */
  lemma DragEndPreservesInvariant(st: TableState, drop: DropResult)
    requires Invariant(st)
    ensures Invariant(OnDragEnd(st, drop))
  {
    var v := st.columnsToShow;
    var r := Reorder(v, drop);
    ReorderIgnoresWrapping(v, drop);
    var sub :| IsSubsequence(sub, st.originalCols) && multiset(Erase(v)) == multiset(sub);
    assert multiset(Erase(r)) == multiset(sub);
    forall c | c in r
      ensures Addressable(c)
    {
      assert c in multiset(v);
    }
    if WellKeyed(st.originalCols) {
      ReorderPreservesWellKeyed(v, drop);
    }
  }

  /** Every state reached from a mount by drags and picker changes keeps the
      invariant. */
  lemma {:induction false} RunPreservesInvariant(st: TableState, events: seq<Event>)
    requires Invariant(st)
    ensures Invariant(Run(st, events))
    decreases |events|
  {
    if |events| > 0 {
      match events[0] {
        case DragEnd(drop) => DragEndPreservesInvariant(st, drop);
        case Check(checked) => CheckEstablishesInvariant(st, checked);
      }
      RunPreservesInvariant(Step(st, events[0]), events[1..]);
    }
  }

  lemma ReachableInvariant(columns: seq<Column>, events: seq<Event>)
    ensures Invariant(Run(Mount(columns), events))
  {
    MountEstablishesInvariant(columns);
    RunPreservesInvariant(Mount(columns), events);
  }

  /** A picker change forgets any order that an earlier drag produced. */
  lemma CheckForgetsDragOrder(st: TableState, drop: DropResult, checked: seq<Column>)
    ensures OnCheck(OnDragEnd(st, drop), checked) == OnCheck(st, checked)
  {
  }

  /** Checking every column after any sequence of drags and picker changes
      shows the canonical list again, in canonical order. */
  lemma CheckAllRestoresCanonical(columns: seq<Column>, events: seq<Event>, checked: seq<Column>)
    requires forall i :: 0 <= i < |columns| ==> IsChecked(columns[i], checked)
    ensures Erase(OnCheck(Run(Mount(columns), events), checked).columnsToShow) == columns
  {
    ProjectAllIsCanonical(columns, checked);
  }

  /** The drop the drag surface reports when the header of shown column `s`
      is released over the header of shown column `t`, in `slot`: both ids
      are read off the drop targets the wrapper created. */
  function HeaderDrop(shown: seq<Column>, s: nat, t: nat, slot: nat): DropResult
    requires s < |shown| && t < |shown|
    requires Addressable(shown[s]) && Addressable(shown[t])
    requires shown[s].dataIndex.Some? && shown[t].dataIndex.Some?
  {
    DropResult(Location(shown[s].title.droppableId.value, 0), Some(Location(shown[t].title.droppableId.value, slot)))
  }

  /** In any state whose canonical list is well-keyed, dragging one shown
      header onto another puts that column immediately before the target
      (slot 0) or immediately after it (other slots), the others keeping
      their order. */
  lemma HeaderDragLandsBesideTarget(st: TableState, s: nat, t: nat, slot: nat)
    requires Invariant(st) && WellKeyed(st.originalCols)
    requires s < |st.columnsToShow| && t < |st.columnsToShow| && s != t
    ensures var shown := st.columnsToShow;
      && Addressable(shown[s]) && Addressable(shown[t]) && shown[s].dataIndex.Some? && shown[t].dataIndex.Some?
      && exists p :: LandsBeside(OnDragEnd(st, HeaderDrop(shown, s, t, slot)).columnsToShow, p,
                                 shown[s], Without(shown, s), shown[t], slot)
  {
    var shown := st.columnsToShow;
    assert shown[s] in shown && shown[t] in shown;
    WellKeyedDropIsMove(shown, s, t, slot, 0);
    LandingIsBesideTarget(shown, s, t, slot);
    assert HeaderDrop(shown, s, t, slot) == DropOnto(shown, s, t, slot, 0);
    var p := Landing(s, t, slot);
    assert LandsBeside(OnDragEnd(st, HeaderDrop(shown, s, t, slot)).columnsToShow, p, shown[s], Without(shown, s), shown[t], slot);
  }

  /** Columns without a `key` cannot be reordered by dragging: every drop
      leaves the state as it was, even though their drop targets carry a
      `dataIndex`. */
  lemma KeylessColumnsIgnoreDrags(st: TableState, drop: DropResult)
    requires forall c :: c in st.columnsToShow ==> c.key.None?
    ensures OnDragEnd(st, drop) == st
  {
    if drop.destination.Some? {
      assert forall j :: 0 <= j < |st.columnsToShow| ==> st.columnsToShow[j] in st.columnsToShow;
      UnmatchedIdIsNoOp(st.columnsToShow, drop);
    }
  }

  /** After a new `columns` prop the shown list may no longer be drawn from
      the canonical list: mounting with one column and then receiving an
      empty `columns` prop breaks the invariant. */
  lemma ColumnsPropCanBreakInvariant()
    ensures var c := Column(Some("a"), Some("a"), Content("A"), map[]);
      Invariant(Mount([c])) && !Invariant(OnColumnsProp(Mount([c]), []))
  {
    var c := Column(Some("a"), Some("a"), Content("A"), map[]);
    MountEstablishesInvariant([c]);
    NothingArrangedInEmpty(Mount([c]).columnsToShow);
  }

  /** No non-empty shown list is drawn from an empty canonical list. */
  lemma NothingArrangedInEmpty(shown: seq<Column>)
    requires |shown| > 0
    ensures !Arranged(shown, [])
  {
    forall sub | IsSubsequence(sub, [])
      ensures multiset(Erase(shown)) != multiset(sub)
    {
      SubsequenceOfEmpty(sub);
      assert Erase(shown)[0] in multiset(Erase(shown));
    }
  }

  /** The next picker change repairs the state after a new `columns` prop:
      the shown list is re-derived from the new canonical list. */
  lemma CheckAfterColumnsPropRestoresInvariant(st: TableState, columns: seq<Column>, checked: seq<Column>)
    ensures var st' := OnCheck(OnColumnsProp(st, columns), checked);
      Invariant(st') && Erase(st'.columnsToShow) == Project(columns, checked)
  {
    CheckEstablishesInvariant(OnColumnsProp(st, columns), checked);
  }
}
