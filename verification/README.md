# SuperAntTable column state, in Dafny

This project models the column-state layer of `SuperAntTable`, a wrapper around
an antd `Table` that lets the user reorder columns by dragging their headers
and hide or show columns through a column picker. The model covers three things:

- **the canonical columns** (`originalCols`): the `columns` prop, captured as
  an immutable value;
- **the shown columns** (`columnsToShow`): the ordered list that the table
  renders, each header wrapped as a drop target that holds one drag source;
- **the two event handlers** that replace the shown list:
  - `handleDragEnd` relocates one column;
  - `handleCheck` re-derives the list from the canonical columns in
    canonical order.

Module layout:

- `Wrappers` (`wrappers.dfy`): `Option`. `None` stands for the handler's `NaN`
  index and for absent fields.
- `Sequences` (`sequences.dfy`):
  - `Without` and `Insert`;
  - `Move`, which re-specifies the `array-move` library as "remove at `from`,
    reinsert so that the element ends at `to`";
  - the index map `MovedFrom`, an independent pointwise description of a move;
  - the subsequence relation.
- `ColumnStore` (`column_store.dfy`):
  - the `Column` record. It keeps `key` and `dataIndex` as separate optional
    fields and passes every other field through untouched;
  - the `Header` of a column, which is either caller content or the drag
    wrapper;
  - the identity precondition `WellKeyed`: every `key` is present and equals
    its `dataIndex`, and keys are unique.
- `DragAdapter` (`drag_adapter.dfy`):
  - `getDndColumns` as `Wrap`. Each header becomes a drop target and a drag
    source, both addressed by the column's `dataIndex`, and the drag source
    sits at slot 0;
  - its inverse `Erase`.
- `ReorderEngine` (`reorder_engine.dfy`): `handleDragEnd`.
  - The scan over the shown list becomes `LastKeyIndex`, and the loop itself
    becomes the method `ScanColumns`.
  - The index arithmetic becomes `Landing`, and the comparisons become
    `Relocate`.
  - The whole handler is `Reorder`.
- `VisibilityProjector` (`visibility_projector.dfy`): `handleCheck`'s filter as
  `Project`, with a characterisation that determines it uniquely.
- `Table` (`table.dfy`): the component state as a value plus transitions
  (`Mount`, `OnDragEnd`, `OnCheck`, `OnColumnsProp`), and the invariants that
  hold in every reachable state.
- `Scenarios` (`scenarios.dfy`): the drags on a well-keyed list `[A, B, C, D]`
  and a concrete list of columns without a `key`.

The identity rules of the source are modelled as written:

- drop targets and drag sources carry the column's `dataIndex`;
- the reorder lookup compares a column's `key` with the drop ids;
- the picker match compares `dataIndex` fields. Two absent `dataIndex` fields
  compare equal, as `undefined === undefined` does.

Relocation correctness is therefore stated under `WellKeyed`. Without it, a
drop whose ids match no `key` leaves the list unchanged. `KeylessColumnsIgnoreDrags`
and `Scenarios.KeylessDragIsIgnored` show this for columns that carry only a
`dataIndex`.

Two behaviours of the code are worth stating plainly:

- **A new `columns` prop.** A new `columns` prop refreshes `originalCols` but
  not `columnsToShow`: `originalCols` is memoised on the prop, while
  `columnsToShow` comes from a `useState` initialiser, which runs once. `OnColumnsProp` models this. `ColumnsPropCanBreakInvariant`
  shows that the shown list can then contain columns that are no longer
  canonical. `CheckAfterColumnsPropRestoresInvariant` shows that the next
  picker change repairs the state.
- **The picker payload.** The picker reports column objects, matched by
  `dataIndex`.

## Model

| member | source | states |
|---|---|---|
| Sequences.Move | src/SuperAntTable.tsx:95-103 | The relocation keeps the length, puts the moved element at the requested index, and is a permutation (same multiset). |
| Sequences.MoveMatchesIndexMap | src/SuperAntTable.tsx:95-103 | Position by position, the result of a move takes its element from the position given by the independent index map `MovedFrom`. |
| Sequences.MoveKeepsOthersInOrder | src/SuperAntTable.tsx:95-103 | Removing the moved element from the result gives the input with that element removed. Every other element keeps its relative order. |
| Sequences.MoveUndo | src/SuperAntTable.tsx:95-103 | Moving the element back from `to` to `from` restores the original list. |
| Sequences.MovedFromInjective | src/SuperAntTable.tsx:95-103 | The index map of a move is injective and in range, so a move is a bijection on positions. |
| DragAdapter.Wrap | src/SuperAntTable.tsx:14-55 | Wrapping keeps length and order, and keeps `key`, `dataIndex` and the other fields. Every header becomes a drop target and a slot-0 drag source, both addressed by the column's `dataIndex`. Unwrapping each column gives back the input column. |
| DragAdapter.WrapColumn | src/SuperAntTable.tsx:18-52 | The per-column rewrite makes the title a drop target and a slot-0 drag source, both addressed by the column's `dataIndex`. It keeps `key`, `dataIndex` and the other fields, and unwrapping gives back the original column. |
| DragAdapter.EraseWrap | src/SuperAntTable.tsx:16-54 | Erasing the wrappers gives back exactly the wrapped list. |
| DragAdapter.WrapPreservesWellKeyed | src/SuperAntTable.tsx:17-53 | A well-keyed list stays well-keyed after wrapping. |
| DragAdapter.EraseMove | src/SuperAntTable.tsx:95-103 | Relocating a column commutes with erasing the header wrappers. |
| ReorderEngine.LastKeyIndex | src/SuperAntTable.tsx:79-87 | The lookup returns None exactly when no column has the id as its `key`. Otherwise it returns the last position whose `key` is the id. |
| ReorderEngine.LookupFindsColumn | src/SuperAntTable.tsx:81-87 | With unique keys, looking up a column's key finds that column's position. |
| ReorderEngine.ScanColumns | src/SuperAntTable.tsx:79-87 | The single forEach pass with its `else if` computes the last source position. It computes the last destination position when the ids differ, and none when they are equal. |
| ReorderEngine.Relocate | src/SuperAntTable.tsx:91-105 | The comparison step always gives a permutation of the shown list of the same length. |
| ReorderEngine.Reorder | src/SuperAntTable.tsx:67-107 | Every drag result is a permutation of the shown list: same length, same multiset. |
| ReorderEngine.DegenerateDropIsNoOp | src/SuperAntTable.tsx:68-75 | A drop without a destination, or onto the droppable it started from, leaves the list unchanged. |
| ReorderEngine.UnmatchedIdIsNoOp | src/SuperAntTable.tsx:79-105 | If no column's `key` is the source id, or none is the destination id (the `NaN` path), the list is unchanged. |
| ReorderEngine.WellKeyedDropIsMove | src/SuperAntTable.tsx:79-104 | In a well-keyed list, a drop of column `s` onto column `t` is exactly the relocation of `s` to the computed index, and that index is in range. |
| ReorderEngine.Landing | src/SuperAntTable.tsx:92-104 | The index handed to `arrayMove` lies between the source and target positions, so it is always in range. What it means, the column landing right before or right after its target, is stated by `LandingIsBesideTarget`. |
| ReorderEngine.LandingIsBesideTarget | src/SuperAntTable.tsx:92-104 | Moving to the computed index puts the moved element right before the target for slot 0 and right after it otherwise. All other elements keep their order. This holds for both drag directions. |
| ReorderEngine.DropLandsBesideTarget | src/SuperAntTable.tsx:67-107 | In a well-keyed list, dropping column `s` on column `t` leaves `s` immediately before `t` (slot 0) or immediately after `t` (other slots). Only `s` changes position among the columns. |
| ReorderEngine.MovePreservesWellKeyed | src/SuperAntTable.tsx:95-103 | A relocation keeps keys present, equal to `dataIndex`, and unique. |
| ReorderEngine.ReorderPreservesWellKeyed | src/SuperAntTable.tsx:91-106 | A drag keeps a well-keyed shown list well-keyed. |
| VisibilityProjector.Project | src/SuperAntTable.tsx:109-112 | The projection is a subsequence of the canonical list. It holds each checked canonical column as often as the canonical list does, and no unchecked column. |
| VisibilityProjector.IsChecked | src/SuperAntTable.tsx:111 | The scan over the checked entries succeeds exactly when some checked entry has the same `dataIndex` as the column, with two absent `dataIndex` fields counting as equal. |
| VisibilityProjector.ProjectIsUnique | src/SuperAntTable.tsx:110-112 | Those two properties determine the projection: any list satisfying them equals it. |
| VisibilityProjector.ProjectAllIsCanonical | src/SuperAntTable.tsx:110-112 | When every canonical column is checked, the projection is the canonical list in canonical order. |
| VisibilityProjector.ProjectIgnoresUnmatchedChecks | src/SuperAntTable.tsx:110-112 | Two checked lists that match the same canonical columns give the same projection. Checked entries that match no canonical column are ignored. |
| VisibilityProjector.ProjectIdempotent | src/SuperAntTable.tsx:110-112 | Projecting a projection with the same checked list changes nothing. |
| VisibilityProjector.SubsequenceWellKeyed | src/SuperAntTable.tsx:110-112 | A subsequence of a well-keyed list is well-keyed. |
| VisibilityProjector.ProjectPreservesWellKeyed | src/SuperAntTable.tsx:110-112 | The projection of a well-keyed canonical list is well-keyed, so no column appears twice. |
| Table.Mount | src/SuperAntTable.tsx:61-65 | On mount the canonical list is the `columns` prop. With wrappers erased, the shown list is exactly that prop. |
| Table.MountEstablishesInvariant | src/SuperAntTable.tsx:61-65 | The mounted state satisfies the invariant. Every shown header is addressable. The shown list, unwrapped, is a rearranged subsequence of the canonical list. A well-keyed canonical list gives a well-keyed shown list. |
| Table.OnDragEnd | src/SuperAntTable.tsx:67-107 | A drag leaves the canonical list alone. The new shown list is a permutation of the old one. |
| Table.OnCheck | src/SuperAntTable.tsx:109-115 | A picker change leaves the canonical list alone. The new shown list, unwrapped, is the projection of the canonical list; the previous shown list plays no part. |
| Table.CheckEstablishesInvariant | src/SuperAntTable.tsx:109-115 | A picker change establishes the invariant from any state. |
| Table.OnColumnsProp | src/SuperAntTable.tsx:61-65 | A new `columns` prop replaces the canonical list and leaves the shown list as it was. |
| Table.Run | src/SuperAntTable.tsx:67-115 | No sequence of drags and picker changes alters the canonical list. |
| Table.LookupIgnoresWrapping | src/SuperAntTable.tsx:81-87 | The key lookup gives the same answer on wrapped and unwrapped columns. |
| Table.RelocateIgnoresWrapping | src/SuperAntTable.tsx:91-105 | The comparison-and-relocation step commutes with erasing wrappers. |
| Table.ReorderIgnoresWrapping | src/SuperAntTable.tsx:67-107 | Reordering commutes with erasing wrappers. |
| Table.DragEndPreservesInvariant | src/SuperAntTable.tsx:67-107 | A drag preserves the invariant. |
| Table.RunPreservesInvariant | src/SuperAntTable.tsx:67-115 | Any sequence of drags and picker changes preserves the invariant. |
| Table.ReachableInvariant | src/SuperAntTable.tsx:61-115 | Every state reached from a mount by drags and picker changes satisfies the invariant. |
| Table.CheckForgetsDragOrder | src/SuperAntTable.tsx:109-115 | A picker change after a drag gives the same state as the picker change without the drag. |
| Table.CheckAllRestoresCanonical | src/SuperAntTable.tsx:109-115 | After any drags and picker changes, checking every column shows the canonical list again, in canonical order. |
| Table.HeaderDragLandsBesideTarget | src/SuperAntTable.tsx:67-107 | Take any invariant state with a well-keyed canonical list. Releasing one shown header over another, with the ids read off the wrappers, puts that column immediately before (slot 0) or after (other slots) the target. The other columns keep their order. |
| Table.KeylessColumnsIgnoreDrags | src/SuperAntTable.tsx:79-105 | When no shown column has a `key`, every drop leaves the state unchanged. |
| Table.ColumnsPropCanBreakInvariant | src/SuperAntTable.tsx:61-65 | After a new `columns` prop the shown list can hold columns that are no longer canonical, so the invariant fails. |
| Table.NothingArrangedInEmpty | src/SuperAntTable.tsx:61-65 | No non-empty shown list is a rearranged subsequence of an empty canonical list. |
| Table.CheckAfterColumnsPropRestoresInvariant | src/SuperAntTable.tsx:109-115 | The first picker change after a new `columns` prop re-derives the shown list from the new canonical list and restores the invariant. |
| Scenarios.DragRightAfter | src/SuperAntTable.tsx:92-97 | Dragging A onto C, after it, turns `[A, B, C, D]` into `[B, C, A, D]`. |
| Scenarios.DragRightBefore | src/SuperAntTable.tsx:92-95 | Dragging A onto C, before it, turns `[A, B, C, D]` into `[B, A, C, D]`. |
| Scenarios.DragLeftBefore | src/SuperAntTable.tsx:99-101 | Dragging D onto B, before it, turns `[A, B, C, D]` into `[A, D, B, C]`. |
| Scenarios.DragLeftAfter | src/SuperAntTable.tsx:99-103 | Dragging D onto B, after it, turns `[A, B, C, D]` into `[A, B, D, C]`. |
| Scenarios.DragOntoItself | src/SuperAntTable.tsx:75 | Dragging B onto B leaves `[A, B, C, D]` unchanged. |
| Scenarios.KeylessDragIsIgnored | src/SuperAntTable.tsx:79-105 | Two columns have `dataIndex` "a" and "b" and no `key`. Dropping A after B changes nothing. |

## Left out

- Rendering is not modelled: JSX, styling, the antd `Table` and the `title` render prop of the picker. A wrapped header is modelled as a `Handle` value that records its drop-target id, drag-source id and slot. The style callbacks it carries are not modelled.
- The React hooks `useState` and `useMemo` are not modelled as such. The state is an explicit value, and each handler is a transition function. Rendering does not affect the column lists.
- The internals of `react-beautiful-dnd` are not modelled. A drop result is a plain value with a source location and an optional destination location. Its `draggableId`, `type`, `reason`, `mode` and `combine` fields are unused by the handler and left out. A null drop result (the `?.` at line 68) is not modelled, because the drag surface always reports one.
- `lodash.clonedeep` is not modelled. Dafny datatypes are immutable values, so neither the wrapping nor the canonical snapshot can alter the caller's columns.
- `ColumnFilter` is not part of this model. Only its output is used: a list of column-like values matched by `dataIndex`.
- The `array-move` library is not modelled. `Sequences.Move` re-specifies it for indices inside the list. Its handling of negative and out-of-range indices is left out, because `handleDragEnd` only passes in-range indices. That `Move`'s precondition holds at every call is part of the verification of `Reorder`.
- `key` and `dataIndex` are modelled as optional strings. antd also allows numeric keys and array-valued `dataIndex` paths, which `===` compares by type or by reference. Those cases are left out.
- Duplicate keys are outside the engine's contract. The model does keep the scan's last-match behaviour for them, in `LastKeyIndex` and `ScanColumns`.
