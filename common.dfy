/** Shared wrapper for values the source may lack (`None` in Python, NULL in SQL). */
module Common {
  datatype Option<T> = None | Some(value: T)
}
