/**
 * The hosted table store, reduced to what the components write: one object per table,
 * whose rows change in place when an insert or update succeeds.
 */
module Store {

  class Table<R> {
    var rows: seq<R>

    constructor (initial: seq<R>)
      ensures rows == initial
    {
      rows := initial;
    }

    /** A successful `insert` adds exactly one row after the existing ones. */
    method Insert(row: R)
      modifies this
      ensures rows == old(rows) + [row]
    {
      rows := rows + [row];
    }
  }
}
