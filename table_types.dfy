/** The value types of the table: rows, cells and column descriptors (src/types/table.ts). */
module TableTypes {
  import opened Wrappers

  /** A field name of a row (`keyof T`). */
  type Key = string

  /** A cell value. The model restricts every sortable field to one totally ordered type. */
  type Value = int

  /** A row: field name to value; `None` stands for an explicit `null`. */
  type Row = map<Key, Option<Value>>

  /** A column descriptor. An absent `sortable` flag is `false`, since the code only tests its truth. */
  datatype Column = Column(key: string, title: string, dataIndex: Key, sortable: bool)

  /** `row[key]` seen through `== null`: an absent field and an explicit `null` both give `None`. */
  function Project(row: Row, key: Key): (v: Option<Value>)
    ensures v.Some? <==> key in row && row[key].Some?
    ensures v.Some? ==> row[key] == v
  {
    if key in row then row[key] else None
  }
}
