/** The column definitions the table is given, and the identity rules that
    the drag and visibility logic rely on. */
module ColumnStore {
  import opened Wrappers

  /** A header title. `Content` is whatever the caller supplied (opaque to
      the table); `Handle` is the drag wrapper: a drop target addressed by
      `droppableId` holding exactly one drag source addressed by
      `draggableId` at slot `draggableIndex`, around the original title. */
  datatype Header =
    | Content(text: string)
    | Handle(droppableId: Option<string>, draggableId: Option<string>, draggableIndex: nat, inner: Header)

  /** One column definition. `key` and `dataIndex` are optional in the
      column records the table receives (`None` is an absent field); `rest`
      stands for every other field, which the table passes through untouched. */
  datatype Column = Column(key: Option<string>, dataIndex: Option<string>, title: Header, rest: map<string, string>)

  /** The column's `key` is present and equal to its `dataIndex`, so that the
      identity drops are addressed by is the one the reorder lookup searches. */
  predicate Identified(c: Column)
  {
    c.key.Some? && c.key == c.dataIndex
  }

  /** No two columns share a `key`. */
  predicate UniqueKeys(cols: seq<Column>)
  {
    forall i, j :: 0 <= i < j < |cols| ==> cols[i].key != cols[j].key
  }

  /** The identity precondition under which drag reordering behaves as
      designed: every column identified, keys unique. */
  predicate WellKeyed(cols: seq<Column>)
  {
    (forall c :: c in cols ==> Identified(c)) && UniqueKeys(cols)
  }

  /** The identity under which a well-keyed column is addressed by drops. */
  function IdOf(c: Column): (id: string)
    requires Identified(c)
    ensures c.key == Some(id) && c.dataIndex == Some(id)
  {
    c.key.value
  }
}
