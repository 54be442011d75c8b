/** Vocabulary shared by every module: optional values, face encodings and
    the distance oracle that compares them. */
module Common {

  /** A value that may be absent (Python's `None`). */
  datatype Option<+T> = None | Some(value: T)

  /** A face encoding: the numeric vector produced by the face-recognition
      library for one detected face. Only its length and the distance oracle
      are ever inspected. */
  type Encoding = seq<real>

  /** The library's face distance between two encodings. It is treated as an
      uninterpreted oracle: the engine only compares its values against a
      threshold and against each other. */
  type DistanceFn = (Encoding, Encoding) -> real
}
