/** Bytes, addresses and the option and result types that every other module shares. */
module Basics {

  type Byte = x: int | 0 <= x < 256
  type Bytes = seq<Byte>

  datatype Option<+T> = None | Some(value: T)

  /** The ways a reader or writer gives up: the exceptions of the serializer, and a failed assertion. */
  datatype Error =
    | ReadPastEnd
    | WrongDelimiter
    | BadFormat
    | ValueTooBig
    | AssertionFailed
    | OutOfRange
    | InvalidInput

  datatype Result<+T> = Success(value: T) | Failure(error: Error) {
    predicate IsFailure() {
      Failure?
    }

    function PropagateFailure<U>(): Result<U>
      requires Failure?
    {
      Failure(error)
    }

    function Extract(): T
      requires Success?
    {
      value
    }
  }

  /** Sixteen octets: the size of an IPv6 address, and of a hash-IP. */
  type Octets16 = s: Bytes | |s| == 16
    witness [0, 0, 0, 0, 0, 0, 0, 0, 0, 0, 0, 0, 0, 0, 0, 0]

  /** Twenty-four octets: the size of a crypto-box nonce. */
  type Octets24 = s: Bytes | |s| == 24
    witness [0, 0, 0, 0, 0, 0, 0, 0, 0, 0, 0, 0, 0, 0, 0, 0, 0, 0, 0, 0, 0, 0, 0, 0]

  /** A hash-IP: the virtual address of a node. */
  datatype Addr = Addr(octets: Octets16)

  /** The default address, all octets zero. */
  const ZERO_ADDR := Addr([0, 0, 0, 0, 0, 0, 0, 0, 0, 0, 0, 0, 0, 0, 0, 0])

  function Min(a: int, b: int): int { if a <= b then a else b }

  function Max(a: int, b: int): int { if a >= b then a else b }
}
