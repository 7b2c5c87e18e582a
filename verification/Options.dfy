/** Results that may be absent: null results, `std::optional` and refused calls of the program. */
module Options {
  datatype Option<+T> = None | Some(value: T)
}
