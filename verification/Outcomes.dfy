/** What became of one uploaded batch. */
module Outcomes {
  /** A batch is appended, or refused with some of its rows already in the appender. */
  datatype Outcome = Appended(rows: nat) | Refused(left: nat)
}
