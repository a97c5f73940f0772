/** Cells and their serialized bags: a cell is its bytes and its references. */
module Cells {
  import opened Wrappers
  import opened Octets

  datatype Cell = Cell(data: Bytes, refs: seq<Cell>)

  /** `read` inverts `write` wherever `write` succeeds; how a bag of cells is laid out does not
      matter. */
  ghost predicate Inverts(read: Bytes -> Option<Cell>, write: Cell -> Option<Bytes>) {
    forall c :: write(c).Some? ==> read(write(c).value) == Some(c)
  }
}
