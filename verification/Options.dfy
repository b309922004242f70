/** An optional value: None stands for the null pointer and for BITMAP_ERROR. */
module Options {
  datatype Option<+T> = None | Some(value: T)
}
