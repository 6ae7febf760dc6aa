/** Small shared vocabulary: the optional value used where the C code returns
    a sentinel (-1, INT_MAX), and the fixed capacity of every array. */
module Wrappers {

  /** A value that may be absent. */
  datatype Option<+T> = None | Some(value: T)

  /** Capacity of the delivery-point table, the distance matrix and the heap
      (`MAX_POINTS` in the C source). */
  const MaxPoints: nat := 20
}
