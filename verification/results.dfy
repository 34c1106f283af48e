/** Optional values shared by the ranking model. */
module Results {

  /** A value that may be absent: JavaScript's `null`, a missing item, or a call that threw. */
  datatype Option<+T> = None | Some(value: T)
}
