/** Picking out of a list: some of its rows, in their order, each as something else. */
module Selection {

  /**
   `out` is what `rows` come to when each row is kept as the item it is related to: `at` are the places
   of the rows kept, in order, and a row that is not among them is related to nothing.
   */
  ghost predicate IsSelection<T, U(!new)>(rows: seq<T>, keptAs: (T, U) -> bool, out: seq<U>, at: seq<nat>) {
    && |at| == |out|
    && (forall j | 0 <= j < |at| :: at[j] < |rows| && keptAs(rows[at[j]], out[j]))
    && (forall j, k | 0 <= j < k < |at| :: at[j] < at[k])
    && (forall i, u | 0 <= i < |rows| && i !in at :: !keptAs(rows[i], u))
  }

  lemma OneMoreKept<T, U(!new)>(rows: seq<T>, keptAs: (T, U) -> bool, out: seq<U>, at: seq<nat>, row: T, u: U)
    requires IsSelection(rows, keptAs, out, at) && keptAs(row, u)
    ensures IsSelection(rows + [row], keptAs, out + [u], at + [|rows|])
  {
    var all := at + [|rows|];
    forall i, v | 0 <= i < |rows + [row]| && i !in all ensures !keptAs((rows + [row])[i], v) {
      assert all[|at|] == |rows|;
      assert i in at ==> i in all;
    }
  }

  lemma OneMorePassed<T, U(!new)>(rows: seq<T>, keptAs: (T, U) -> bool, out: seq<U>, at: seq<nat>, row: T)
    requires IsSelection(rows, keptAs, out, at) && forall u :: !keptAs(row, u)
    ensures IsSelection(rows + [row], keptAs, out, at)
  {}
}
