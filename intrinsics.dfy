/**
 * Shared vocabulary of the two containers: the SIMD lane width, the element-wise
 * operations the assignment kernels perform, and the errors the operators report.
 *
 * An intrinsic value (one SIMD register) is modelled as a sequence of exactly W
 * elements; a vector load or store reads or writes W consecutive elements. The
 * element type is `int`, whose default value is 0.
 */
module Intrinsics {

  /** Number of `int` elements in one intrinsic value (four 32-bit lanes of SSE2). */
  const W: nat := 4

  /** The element-wise update a kernel applies: `=`, `+=`, `-=` or `*=`. */
  datatype Op = Assign | Add | Sub | Mult

  /** New value of an element whose old value is `x` when the kernel's operand is `y`. */
  function Apply(op: Op, x: int, y: int): int
  {
    match op
    case Assign => y
    case Add => x + y
    case Sub => x - y
    case Mult => x * y
  }

  /** Lane-wise `Apply` on two intrinsic values (the `+`, `-`, `*` of intrinsic types). */
  function PackApply(op: Op, x: seq<int>, y: seq<int>): (r: seq<int>)
    requires |x| == W && |y| == W
    ensures |r| == W
  {
    seq(W, k requires 0 <= k < W => Apply(op, x[k], y[k]))
  }

  /** The default (zero) element is absorbed by every kernel operation on padding. */
  lemma ApplyOnDefaults(op: Op)
    ensures Apply(op, 0, 0) == 0
  {
  }

  /** Largest multiple of `k` not above `n`: the `n & size_t(-k)` of the kernels. */
  function RoundDown(n: nat, k: nat): (r: nat)
    requires k > 0
    ensures r <= n && n - r < k
  {
    n - n % k
  }
}

/** The error conditions the operators report by throwing `std::invalid_argument`. */
module Errors {

  datatype Error = InvalidArgument(message: string)

  /** Result of an operation that either completes or throws. */
  datatype Outcome = Pass | Fail(error: Error)

  /** Result of an operation that produces a value or throws. */
  datatype Result<T> = Success(value: T) | Failure(error: Error)
}
