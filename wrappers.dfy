/** Values that may be missing: the total that `displayTotalSum` does not
    show for an empty roll, the image a click does not put on screen, the
    number `parseInt` does not find. */
module Wrappers {
  datatype Option<T> = None | Some(value: T)
}
