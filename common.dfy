/** Shared value types: optional values, the errors the forward projector can raise,
    3-vectors, and the way Python and torch resolve an integer index. */
module Common {

  datatype Option<T> = None | Some(value: T)

  /** The exceptions raised by the modelled code. */
  datatype Error =
    /** The failed footprint assertion of the tiler: `span` is the footprint of all
        micro-lenses and `extent` the volume extent Dy it was compared with (the
        assertion's message prints entry 1 of the configured volume shape, not this
        extent of the parameter tensor). */
    | NoMicroLensFits(span: int, extent: int)
    | IndexOutOfRange                          // an IndexError raised by list or tensor indexing
    | InvalidPlaneCount(digit: char)           // the ValueError of parsing the plane count of a mode name

  datatype Result<T> = Success(value: T) | Failure(error: Error)

  /** A 3-vector of reals: an optic axis, a ray direction or a basis vector. */
  datatype Vec3 = Vec3(a: real, b: real, c: real)

  const ZeroVec3: Vec3 := Vec3(0.0, 0.0, 0.0)

  /** Resolves index `i` into an axis of length `n` as Python lists and torch tensors do:
      a negative index counts from the end, and anything outside [-n, n) raises IndexError. */
  function PyIndex(i: int, n: nat): (r: Option<nat>)
    ensures r.Some? <==> -(n as int) <= i < n
    ensures r.Some? ==> r.value < n && (if i >= 0 then r.value == i else r.value == i + n)
  {
    if 0 <= i < n then Some(i)
    else if -(n as int) <= i < 0 then Some(i + n)
    else None
  }
}
