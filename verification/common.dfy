/** Shared vocabulary: optional values, results, the unsigned 32-bit integer
    range of the converter's `uint` variables, and the .NET exceptions the
    converter lets escape. */
module Common {

  /** A value that may be absent (a null reference in the converter). */
  datatype Option<+T> = None | Some(value: T) {

    /** The carried value, or `default` when there is none. */
    function GetOr(default: T): T {
      match this
      case Some(v) => v
      case None => default
    }
  }

  /** Either a value or an error. */
  datatype Result<+T, +E> = Success(value: T) | Failure(error: E)

  const TwoTo32: int := 0x1_0000_0000

  /** The range of a C# `uint`. */
  type u32 = x: int | 0 <= x < 0x1_0000_0000

  /** Unchecked `uint` arithmetic: the mathematical result reduced modulo 2^32. */
  function Wrap32(x: int): (r: u32)
    ensures 0 <= x < TwoTo32 ==> r == x
    ensures (x - r) % TwoTo32 == 0
  {
    x % TwoTo32
  }

  /** The unchecked cast `(int)x` from `uint` to the signed 32-bit `int`:
      the same 32 bits read in two's complement. */
  function ToInt32(x: u32): (r: int)
    ensures -0x8000_0000 <= r < 0x8000_0000
    ensures (x - r) % TwoTo32 == 0
  {
    if x < 0x8000_0000 then x else x - TwoTo32
  }

  /** A positive multiple of `b` is at least `b`. */
  lemma MulAtLeast(k: int, b: int)
    requires k >= 1 && b > 0
    ensures k * b >= b
  {
    assert k * b == (k - 1) * b + b;
  }

  /** `a / b == q` exactly when `q * b <= a < q * b + b`. */
  lemma DivUnique(a: nat, b: nat, q: nat)
    requires b > 0 && q * b <= a < q * b + b
    ensures a / b == q
  {
    var d := a / b;
    assert d * b + a % b == a && 0 <= a % b < b;
    if d > q {
      assert (d - q) * b == d * b - q * b;
      MulAtLeast(d - q, b);
    } else if d < q {
      assert (q - d) * b == q * b - d * b;
      MulAtLeast(q - d, b);
    }
  }

  /** The exceptions the converter does not catch; each one ends the process
      with a runtime error instead of a return code. */
  datatype Exception =
    | ArgumentNull          // Buffer.BlockCopy into the still-null tile buffer
    | ArgumentOutOfRange    // negative offset, or BitConverter on an empty array
    | Argument              // copy or read running past the end of an array
    | IndexOutOfRange       // reading past a short signature array
    | DivideByZero          // tilecount with a zero tile size
}
