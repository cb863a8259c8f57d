/** How a transaction of the store can end (`_txn` in
    `src/salient_core/bus/_context_store.py:560-607`). */
module Transactions {
  /** `Interrupted`: what is raised is not a database error, so no caller in the
      store handles it. */
  datatype Ending = Returned | DatabaseError | Interrupted

  /** `landed`: the statements are in the database. A commit that is interrupted
      after it took effect raises and lands. */
  datatype Outcome = Outcome(ending: Ending, landed: bool) {
    predicate Silent() {
      landed && ending != Returned
    }
  }

  const REFUSED := Outcome(DatabaseError, false)
}
