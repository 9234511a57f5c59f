/** The data model of the generator: one entry per Unicode block, and the ways a run fails. */
module Blocks {

  /** One block: its inclusive code-point range and its identifier. No check relates `start` and `stop`. */
  datatype Entry = Entry(start: nat, stop: nat, name: string)

  /** A row of the comma-separated table, already split into fields. */
  type Row = seq<string>

  /**
   * Why a run aborts: a row without the field it needs (Python raises
   * `IndexError`), or a range field the pattern does not match (`matched` is
   * `None`, and `.group` raises).
   */
  datatype Error = MissingField(column: nat) | RangeMismatch(field: string)
}
