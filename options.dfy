/** The conventional optional value, used for the handler's nullable refs
    (`pinchStartRef`), for the cursor position that may not be set yet,
    and for the events a step may or may not emit. */
module Options {
  datatype Option<+T> = None | Some(value: T)
}
