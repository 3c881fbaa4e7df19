/** Shared value wrappers and arithmetic steps. */
module Common {

  /** A value that may be absent: a missing CSV cell, a date that failed to parse,
      a form field left empty. */
  datatype Option<+T> = None | Some(value: T)

  /** One more copy of a: the step of every count-times-value sum. */
  lemma {:induction false} CountStep(k: real, a: real)
    ensures (k + 1.0) * a == k * a + a
  {
  }
}
