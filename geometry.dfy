/**
 * Shared vocabulary of libsharp's ring-geometry builders: the per-ring descriptor
 * handed to the ring-table packager, the error kinds that replace the process
 * aborts, and the floating-point library whose values the model leaves open.
 */
module Geometry {

  /** The value of pi every builder declares, as an exact real. */
  const Pi: real := 3.141592653589793238462643383279502884197

  /**
   * The floating-point operations whose values this model does not interpret:
   * the C math library calls, and IEEE division where the model cannot show the
   * divisor is nonzero. Every other operation is exact real or integer arithmetic.
   */
  datatype Libm = Libm(
    sin: real -> real,
    cos: real -> real,
    asin: real -> real,
    acos: real -> real,
    sqrt: real -> real,
    fdiv: (real, real) -> real)

  /** The two fatal conditions of the builders, reported instead of aborting. */
  datatype Error =
    | InvalidConfiguration  // ring-count parity rejected by a builder
    | NonConvergence        // Newton iteration for a Gauss-Legendre root hit its cap

  datatype Result<T> = Ok(value: T) | Err(error: Error)

  datatype Option<T> = None | Some(value: T)

  /**
   * One ring as the packager receives it: colatitude, quadrature weight, number
   * of samples, phase of the first sample, offset of the first sample in the
   * flat data buffer (already multiplied by the stride), and sample stride.
   */
  datatype Ring = Ring(theta: real, weight: real, nph: int, phi0: real, ofs: int, stride: int)

  function Abs(r: real): real
  {
    if r < 0.0 then -r else r
  }

  /** Number of samples over all rings of a ring set. */
  function TotalSamples(rings: seq<Ring>): int
  {
    if rings == [] then 0 else TotalSamples(rings[..|rings| - 1]) + rings[|rings| - 1].nph
  }

  /** Quadrature of the constant function 1: the sum over rings of nph * weight. */
  function WeightedArea(rings: seq<Ring>): real
  {
    if rings == [] then 0.0
    else WeightedArea(rings[..|rings| - 1]) + rings[|rings| - 1].nph as real * rings[|rings| - 1].weight
  }

  /**
   * Hand-off of the six parallel arrays every builder fills: ring m of the
   * result collects the m-th entry of each array.
   */
  method Package(theta: array<real>, weight: array<real>, nph: array<int>,
                 phi0: array<real>, ofs: array<int>, stride: array<int>)
    returns (rings: seq<Ring>)
    requires weight.Length == nph.Length == phi0.Length == ofs.Length == stride.Length == theta.Length
    ensures |rings| == theta.Length
    ensures forall m :: 0 <= m < |rings| ==>
      rings[m] == Ring(theta[m], weight[m], nph[m], phi0[m], ofs[m], stride[m])
  {
    rings := seq(theta.Length, m requires 0 <= m < theta.Length reads theta, weight, nph, phi0, ofs, stride =>
      Ring(theta[m], weight[m], nph[m], phi0[m], ofs[m], stride[m]));
  }
}
