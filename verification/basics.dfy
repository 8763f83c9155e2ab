/** Small shared vocabulary: optional values, results with an error,
    window-local points and the scalar helpers the trail engines use. */
module Basics {

  /** A value that may be absent (the source's nullable `Point?`). */
  datatype Option<+T> = None | Some(value: T)

  /** The outcome of an operation that can throw. */
  datatype Result<+T, +E> = Ok(value: T) | Err(error: E)

  /** A point in device-independent, window-local coordinates. */
  datatype Point = Point(x: real, y: real)

  function Abs(v: real): (r: real)
    ensures r >= 0.0
    ensures r == v || r == -v
  {
    if v < 0.0 then -v else v
  }

  function Max(a: real, b: real): (r: real)
    ensures r >= a && r >= b
    ensures r == a || r == b
  {
    if a < b then b else a
  }

  function MinInt(a: int, b: int): (r: int)
    ensures r <= a && r <= b
    ensures r == a || r == b
  {
    if a < b then a else b
  }

  /** A conversion of a real to a byte channel: truncation toward zero for
      values already in byte range, clamped to [0, 255] otherwise. */
  function ToByte(v: real): (b: int)
    ensures 0 <= b <= 255
    ensures 0.0 <= v < 256.0 ==> b == v.Floor
  {
    if v < 0.0 then 0
    else if v >= 256.0 then 255
    else v.Floor
  }
}
