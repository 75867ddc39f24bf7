/** `getDndColumns`: turning every column header into a drop target holding
    one drag source, both addressed by the column's `dataIndex`. */
module DragAdapter {
  import opened Wrappers
  import opened Sequences
  import opened ColumnStore

  /** The column's title is a drag wrapper addressed by the column's own
      `dataIndex`, with its single drag source at slot 0. */
  predicate Addressable(c: Column)
  {
    c.title.Handle? && c.title.droppableId == c.dataIndex
    && c.title.draggableId == c.dataIndex && c.title.draggableIndex == 0
  }

  /** The rewrite of one column: its title becomes the drag wrapper around
      the old title; every other field is kept. */
  function WrapColumn(c: Column): (w: Column)
    ensures Addressable(w)
    ensures w.key == c.key && w.dataIndex == c.dataIndex && w.rest == c.rest
    ensures Unwrap(w) == c
  {
    c.(title := Handle(c.dataIndex, c.dataIndex, 0, c.title))
  }

  /** Removes one drag wrapper from the title; other fields are untouched. */
  function Unwrap(c: Column): Column
  {
    match c.title
    case Handle(_, _, _, inner) => c.(title := inner)
    case Content(_) => c
  }

  /** `getDndColumns`: wraps every header, keeping order, length and every
      other field. The input is a value, so it cannot be modified. */
  function Wrap(cols: seq<Column>): (r: seq<Column>)
    ensures |r| == |cols|
    ensures forall i :: 0 <= i < |r| ==> Addressable(r[i])
    ensures forall i :: 0 <= i < |r| ==> r[i].key == cols[i].key && r[i].dataIndex == cols[i].dataIndex && r[i].rest == cols[i].rest
    ensures forall i :: 0 <= i < |r| ==> Unwrap(r[i]) == cols[i]
  {
    seq(|cols|, i requires 0 <= i < |cols| => WrapColumn(cols[i]))
  }

  /** The wrapping erased: each column's title back to what it wrapped. */
  function Erase(cols: seq<Column>): (r: seq<Column>)
    ensures |r| == |cols|
    ensures forall i :: 0 <= i < |r| ==> r[i] == Unwrap(cols[i])
  {
    seq(|cols|, i requires 0 <= i < |cols| => Unwrap(cols[i]))
  }

  /** Erasing the wrappers gives back exactly the list that was wrapped. */
  lemma EraseWrap(cols: seq<Column>)
    ensures Erase(Wrap(cols)) == cols
  {
  }

  /** Wrapping leaves every column's identity alone, so a well-keyed list stays well-keyed. */
  lemma WrapPreservesWellKeyed(cols: seq<Column>)
    requires WellKeyed(cols)
    ensures WellKeyed(Wrap(cols))
  {
    var r := Wrap(cols);
    forall c | c in r
      ensures Identified(c)
    {
      var i :| 0 <= i < |r| && r[i] == c;
      assert cols[i] in cols;
    }
  }

  /** Relocating a column and erasing the wrappers can be done in either order. */
  lemma EraseMove(s: seq<Column>, from: nat, to: nat)
    requires from < |s| && to < |s|
    ensures Erase(Move(s, from, to)) == Move(Erase(s), from, to)
  {
    MoveMatchesIndexMap(s, from, to);
    MoveMatchesIndexMap(Erase(s), from, to);
  }
}
