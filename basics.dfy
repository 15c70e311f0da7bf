/** Shared vocabulary of the codec: 8-bit samples, the four corner samples of
    an area, row-major order on pixels, and the usual Option/Result wrappers. */
module Basics {

  /** An unsigned 8-bit sample (Go's `byte`/`uint8`). */
  type Byte = b: int | 0 <= b < 256

  /** The four corner samples of an area, in the order
      upper-left, upper-right, bottom-left, bottom-right (Go's `[4]byte`). */
  type Quad = s: seq<Byte> | |s| == 4 witness [0, 0, 0, 0]

  /** Go's `a - b` on two `byte` operands: the difference wraps modulo 256. */
  function WrapSub(a: Byte, b: Byte): (r: Byte)
    ensures b <= a ==> r == a - b
    ensures a < b ==> r == a - b + 256
  {
    (a - b) % 256
  }

  /** Pixel (x1, y1) comes strictly before (x2, y2) in row-major order
      (top to bottom, then left to right). */
  predicate Before(x1: int, y1: int, x2: int, y2: int)
  {
    y1 < y2 || (y1 == y2 && x1 < x2)
  }

  /** A channel's samples as the Go code holds them: `values[x][y]`, one
      slice per column, width columns of height samples each. */
  predicate IsChannel(values: seq<seq<Byte>>, width: int, height: int)
  {
    |values| == width && forall x :: 0 <= x < width ==> |values[x]| == height
  }

  datatype Option<T> = None | Some(value: T)

  datatype Result<T, E> = Success(value: T) | Failure(error: E)
}
