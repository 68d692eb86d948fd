/** Optional values, the exceptions the library throws, and the two result records it hands back. */
module Results {
  /** A value that may be absent; `None` models the library's `null`. */
  datatype Option<T> = None | Some(value: T)

  /** The .NET exception kinds the modelled operations can raise. */
  datatype Error =
    | InvalidOperation     // InvalidOperationException
    | Argument             // ArgumentException
    | IndexOutOfRange      // IndexOutOfRangeException / ArgumentOutOfRangeException
    | NotImplemented       // NotImplementedException

  /** Either the value an operation returns or the exception it throws. */
  datatype Result<T> = Success(value: T) | Failure(error: Error)

  /** IntersectResult: a hit point with its parameters on the two curves (VParameter defaults to 0). */
  datatype IntersectResult<P> = IntersectResult(Point: P, UParameter: real, VParameter: real)

  /** An intersection record with only its point set. */
  function Hit<P>(point: P): IntersectResult<P> { IntersectResult(point, 0.0, 0.0) }

  /** ProjectionResult: a projected point, its parameter and the signed distance travelled. */
  datatype ProjectionResult<P> = ProjectionResult(Point: P, Parameter: real, Distance: real)
}
