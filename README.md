# libsharp ring-geometry builders in Dafny

This project models the geometry helpers of libsharp, in `libsharp/sharp_geomhelpers.c`. They
describe a spherical pixelisation as a set of iso-latitude rings. Each ring has:

- a colatitude `theta`;
- a quadrature weight;
- a number of samples `nph`;
- the phase `phi0` of its first sample;
- the offset `ofs` of its first sample in a flat data buffer;
- a sample stride.

Every builder fills six parallel arrays ring by ring and hands them to the ring-table packager.

Modules:

- `Geometry` (`geometry.dfy`): the `Ring` record, the `Result`/`Error` types, and the `Libm`
  record of floating-point library functions the model leaves open. It also holds `Package`, which
  collects the six arrays into a `seq<Ring>`. That is the hand-off to `sharp_make_geom_info`.
- `Healpix` (`healpix.dfy`): the RING-ordered HEALPix layout of `4*nside-1` rings over
  `12*nside^2` pixels. It covers the northern mirror ring, the sample counts, the half-pixel phase
  rule, and the colatitude and offset reflected into the southern hemisphere. It also covers the
  band-weight lookup and the unweighted entry point. Proved about the layout:
  - the rings tile the pixel buffer contiguously, and every pixel lies on exactly one ring;
  - the sample counts sum to `npix`;
  - the hemispheres are symmetric;
  - unit band weights give a quadrature of 1 equal to exactly `4*pi`.
- `GaussLegendre` (`gauss_legendre.dfy`): `gauss_legendre_tbl`. It models:
  - the Legendre recurrence of the inner loop;
  - the Newton loop, with its "one more pass after the first small step, give up at pass 100"
    control flow;
  - the mirrored fill that writes root `i` to indices `i-1` (negated) and `n-i`.

  Proved: the fill covers the table, the nodes are antisymmetric, the weights are symmetric, and
  `P_k` has the parity of `k`.
- `RegularGrids` (`grids.dfy`): the three regular grids.
  - The Gauss grid: Gauss-Legendre nodes as colatitudes.
  - The ECP grid: equidistant rings with the Driscoll-Healy weights of `makeweights`; an even
    ring count is required.
  - The HW grid: equiangular rings from pole to pole, clamped `1e-15` away from the poles, with
    Keiner-Potts weights; an odd ring count is required.

  It also holds the `eps` boundary indicator.

Conventions:

- Floating-point values are exact `real`s, and pi is the decimal literal the builders declare.
- `sin`, `cos`, `asin`, `acos` and `sqrt` are fields of a `Libm` parameter.
- So is every division whose divisor the model cannot show to be nonzero (`Libm.fdiv`). In IEEE
  arithmetic such a division yields an infinity or a NaN rather than failing.
- The fatal assertion of the C code (a process abort) becomes an `Err` result:
  - `InvalidConfiguration` for the ring-count parity checks;
  - `NonConvergence` for the Newton iteration cap.

## Model

| member | source | states |
|---|---|---|
| Geometry.Package | libsharp/sharp_geomhelpers.c:92-93 | ring m of the table holds the m-th entry of each of the six arrays, and there are as many rings as array entries |
| Healpix.Npix | libsharp/sharp_geomhelpers.c:50 | the pixel count 12*nside^2 is at least 12*nside |
| Healpix.NorthRing | libsharp/sharp_geomhelpers.c:62-63 | the northern mirror ring lies in [1, 2*nside], so the band-weight lookup weight[northring-1] is in bounds |
| Healpix.RingNph | libsharp/sharp_geomhelpers.c:65-77 | a ring has between 4 and 4*nside samples |
| Healpix.NorthOfs | libsharp/sharp_geomhelpers.c:70-82 | pixel offset of northern ring nr: 2 nr (nr-1) in the cap, ncap + (nr-nside)*4 nside in the belt; the ring lies wholly inside [0, npix) |
| Healpix.NorthOfsBound | libsharp/sharp_geomhelpers.c:70-82 | both offset formulas keep the northern ring within [0, npix) |
| Healpix.CapBound | libsharp/sharp_geomhelpers.c:70 | a cap ring nr < nside ends at pixel 2 nr (nr+1), within 12 nside^2 |
| Healpix.BeltBound | libsharp/sharp_geomhelpers.c:82 | a belt ring ends at pixel 2 nside (nside+1) + 4 d nside, within 12 nside^2 |
| Healpix.NorthTheta | libsharp/sharp_geomhelpers.c:67-76 | colatitude of northern ring nr: 2 asin(nr / (sqrt(6) nside)) in the cap, acos((2 nside - nr) 8 nside / npix) in the belt |
| Healpix.Phase | libsharp/sharp_geomhelpers.c:69-81 | the phase is 0 exactly on belt rings with odd nr - nside, and pi/nph otherwise |
| Healpix.RingTheta | libsharp/sharp_geomhelpers.c:84-86 | the colatitude of ring m: its mirror ring's, reflected to pi - theta in the southern hemisphere |
| Healpix.RingOfs | libsharp/sharp_geomhelpers.c:84-87 | the offset of ring m: the northern offset times the stride, mirrored to (npix - nph)*stride - ofs in the southern hemisphere |
| Healpix.HealpixRings | libsharp/sharp_geomhelpers.c:52 | the HEALPix table has 4*nside-1 rings |
| Healpix.UnitWeights | libsharp/sharp_geomhelpers.c:40-41 | the band-weight table of the unweighted entry point has 2*nside entries |
| Healpix.ComputeRing | libsharp/sharp_geomhelpers.c:62-89 | one pass of the ring loop produces exactly ring m of the HEALPix table: mirror ring, cap/belt formulas, southern reflection, weight lookup |
| Healpix.FillRings | libsharp/sharp_geomhelpers.c:54-90 | after the loop, entry k of the six arrays is ring k of the HEALPix table for every k |
| Healpix.MakeWeightedHealpixGeom | libsharp/sharp_geomhelpers.c:46-101 | the weighted builder returns exactly the HEALPix ring table for the given band weights |
| Healpix.MakeHealpixGeom | libsharp/sharp_geomhelpers.c:37-44 | the unweighted builder equals the weighted builder called with 2*nside ones |
| Healpix.NorthOfsStep | libsharp/sharp_geomhelpers.c:70-82 | the northern offset of ring nr+1 is that of ring nr plus its sample count, across the cap/belt boundary too |
| Healpix.PixelTiling | libsharp/sharp_geomhelpers.c:63-87 | ring m+1 starts in the pixel buffer where ring m ends, including the step from the equator into the south |
| Healpix.PixelBounds | libsharp/sharp_geomhelpers.c:70-87 | the first ring starts at pixel 0 and the last ends at pixel npix |
| Healpix.RingsDisjoint | libsharp/sharp_geomhelpers.c:70-87 | every ring ends before any later ring starts |
| Healpix.RingsBelowNpix | libsharp/sharp_geomhelpers.c:70-87 | every ring lies within [0, npix) |
| Healpix.LocateFrom | libsharp/sharp_geomhelpers.c:70-87 | a pixel at or beyond the start of ring k lies on some ring at or after k |
| Healpix.PixelOwnedByOneRing | libsharp/sharp_geomhelpers.c:70-87 | every pixel of the buffer lies on one ring and on no other |
| Healpix.RingOfsIsScaled | libsharp/sharp_geomhelpers.c:70-87 | the stored offset is the pixel offset times the stride, and the stored count is the ring's sample count |
| Healpix.HealpixLaidOut | libsharp/sharp_geomhelpers.c:60-90 | every ring of the table has the layout's sample count and stride-scaled offset |
| Healpix.LaidOutStep | libsharp/sharp_geomhelpers.c:70-87 | in a laid-out table, ofs[m+1] = ofs[m] + nph[m]*stride |
| Healpix.LaidOutTiles | libsharp/sharp_geomhelpers.c:70-87 | a laid-out table starts at 0, is contiguous, and ends at npix*stride |
| Healpix.OffsetsTile | libsharp/sharp_geomhelpers.c:50-87 | the builder's offsets: ofs[0] = 0, ofs[m+1] = ofs[m] + nph[m]*stride, and the last ring ends at npix*stride |
| Healpix.SamplesUpTo | libsharp/sharp_geomhelpers.c:68-82 | the samples of the rings before ring k add up to ring k's pixel offset |
| Healpix.LaidOutSamples | libsharp/sharp_geomhelpers.c:68-82 | the samples of a laid-out table add up to npix |
| Healpix.SamplesSumToNpix | libsharp/sharp_geomhelpers.c:50-77 | the nph of all rings sum to npix = 12*nside^2 |
| Healpix.UniformAreaUpTo | libsharp/sharp_geomhelpers.c:89 | with one weight c on every ring, the quadrature of 1 over the first k rings is c times their sample count |
| Healpix.UnitWeightsAreUniform | libsharp/sharp_geomhelpers.c:40-42 | with unit band weights every ring weighs 4*pi/npix |
| Healpix.UniformArea | libsharp/sharp_geomhelpers.c:89 | rings of one weight c holding n samples have a quadrature of 1 equal to c*n |
| Healpix.LaidOutArea | libsharp/sharp_geomhelpers.c:89 | a laid-out table whose rings weigh 4*pi/npix has a quadrature of 1 equal to 4*pi |
| Healpix.UnweightedAreaIs4Pi | libsharp/sharp_geomhelpers.c:37-44 | the unweighted HEALPix grid integrates 1 to exactly 4*pi |
| Healpix.PixelsCoverSphere | libsharp/sharp_geomhelpers.c:89 | npix pixels of area 4*pi/npix make up 4*pi |
| Healpix.HemisphereSymmetry | libsharp/sharp_geomhelpers.c:84-88 | rings m and nrings-1-m share their mirror ring; the southern one has theta = pi - theta_north and ofs = (npix - nph)*stride - ofs_north, and every other field equal |
| Healpix.SampleCounts | libsharp/sharp_geomhelpers.c:65-77 | nph = 4*northring in the polar caps and 4*nside in the belt |
| Healpix.NorthernSampleCountsGrow | libsharp/sharp_geomhelpers.c:65-77 | sample counts never decrease from the north pole to the equator |
| Healpix.PhaseRule | libsharp/sharp_geomhelpers.c:69-81 | phi0 is 0 exactly on belt rings at odd distance from the first belt ring, and pi/nph on every other ring |
| Healpix.BeltPhaseAlternates | libsharp/sharp_geomhelpers.c:78-81 | neighbouring belt rings alternate between shifted and unshifted phase |
| Healpix.RingWeights | libsharp/sharp_geomhelpers.c:89 | the weight of ring m is 4*pi/npix times the band weight of its mirror ring, and 4*pi/npix with unit weights |
| Healpix.SmallestGrid | libsharp/sharp_geomhelpers.c:50-87 | nside = 1 gives 3 rings of 4 samples at offsets 0, 4*stride and 8*stride, and npix = 12 |
| GaussLegendre.SourceRecurrence | libsharp/sharp_geomhelpers.c:136-137 | the rearranged update x P1 + (k-1)/k (x P1 - P2) equals the three-term Legendre recurrence |
| GaussLegendre.LegendreAtOne | libsharp/sharp_geomhelpers.c:128-138 | every Legendre polynomial evaluates to 1 at x = 1 |
| GaussLegendre.RecurEven | libsharp/sharp_geomhelpers.c:137 | a recurrence step from an odd P_{k-1} and an even P_{k-2} is even in x |
| GaussLegendre.RecurOdd | libsharp/sharp_geomhelpers.c:137 | a recurrence step from an even P_{k-1} and an odd P_{k-2} is odd in x |
| GaussLegendre.LegendreParity | libsharp/sharp_geomhelpers.c:128-138 | P_k(-x) = (-1)^k P_k(x) and P_{k-1}(-x) = (-1)^(k-1) P_{k-1}(x), for the pair the inner loop computes |
| GaussLegendre.LegendreRootsSymmetric | libsharp/sharp_geomhelpers.c:128-138 | x is a root of P_n exactly when -x is |
| GaussLegendre.EvalLegendre | libsharp/sharp_geomhelpers.c:128-138 | the inner loop returns P_n(x) and P_{n-1}(x) of the Legendre recurrence |
| GaussLegendre.NewtonPass | libsharp/sharp_geomhelpers.c:128-146 | one Newton pass computes the derivative and the next iterate from the polynomial values at x |
| GaussLegendre.InitialGuess | libsharp/sharp_geomhelpers.c:116-121 | the first guess for root i: cos(pi (4i-1) t1) t0, with t0 = 1 - (1 - 1/n)/(8 n^2) and t1 = 1/(4n+2) |
| GaussLegendre.FirstConvergedSpec | libsharp/sharp_geomhelpers.c:143-150 | the search returns the first pass whose step is at most 3e-14 and before pass 100, or reports that none is |
| GaussLegendre.FirstConvergedNone | libsharp/sharp_geomhelpers.c:149-150 | with no converged pass before pass 100, the search finds none |
| GaussLegendre.FirstConvergedAt | libsharp/sharp_geomhelpers.c:149-150 | the search finds p when p is the first converged pass |
| GaussLegendre.NewtonOutcomeRule | libsharp/sharp_geomhelpers.c:123-151 | the root solve succeeds iff some pass before the 100th converges, and then returns the iterate one pass after the first converged pass |
| GaussLegendre.SolveRoot | libsharp/sharp_geomhelpers.c:123-151 | the while(1) loop with dobreak and the pass counter delivers exactly the Newton outcome: the pass after the first small step, or NonConvergence |
| GaussLegendre.RootIndex | libsharp/sharp_geomhelpers.c:119-156 | the pass whose writes land on index j is in 1..ceil(n/2) and writes j as either i-1 or n-i |
| GaussLegendre.MirrorFillCovers | libsharp/sharp_geomhelpers.c:119-156 | pass i writes index j (at i-1 or n-i) iff i is the pass RootIndex(j), so every index is written by exactly one pass |
| GaussLegendre.NodesSymmetric | libsharp/sharp_geomhelpers.c:153-156 | w[j] = w[n-1-j], x[j] = -x[n-1-j] off the middle, and the middle node of an odd table is the root itself |
| GaussLegendre.OutcomeTable | libsharp/sharp_geomhelpers.c:119-151 | a table of the outcomes of the first count root solves |
| GaussLegendre.SolveAt | libsharp/sharp_geomhelpers.c:121-151 | the solve for root i from its cosine first guess yields the tabulated outcome |
| GaussLegendre.FilledTable | libsharp/sharp_geomhelpers.c:153-156 | a table filled from converged outcomes holds the nodes and weights at every index |
| GaussLegendre.StoreStep | libsharp/sharp_geomhelpers.c:153-156 | storing root i at i-1 (negated) and n-i, and its weight at both, extends the filled part by pass i |
| GaussLegendre.MirrorFill | libsharp/sharp_geomhelpers.c:114-157 | the outer loop succeeds iff every root solve converges (NonConvergence otherwise); on success x[j] and w[j] are the node and weight of index j |
| GaussLegendre.GaussLegendreTable | libsharp/sharp_geomhelpers.c:110-158 | the table of order n with the Legendre Newton pass and cosine guesses: success iff all roots converge, then x and w hold the nodes and weights |
| RegularGrids.RegularSamples | libsharp/sharp_geomhelpers.c:188-196 | rings that all carry c samples hold |rings|*c samples together; the three regular builders use it for their sample totals |
| RegularGrids.ComputeDhWeight | libsharp/sharp_geomhelpers.c:166-171 | one pass of makeweights is the sum of bw sine terms, times sin((2j+1) fudge), times 2/bw |
| RegularGrids.MakeWeights | libsharp/sharp_geomhelpers.c:160-173 | makeweights writes the Driscoll-Healy weight at each of the first 2*bw entries and leaves the rest untouched |
| RegularGrids.Eps | libsharp/sharp_geomhelpers.c:245-250 | 0.5 at j = 0 or j = J, 1 strictly between, 0 outside; its value is always one of these three and is positive for 0 <= j <= J |
| RegularGrids.EpsValues | libsharp/sharp_geomhelpers.c:245-250 | eps is 0.5 iff j = 0 or j = J, 1 iff 0 < j < J, and 0 otherwise |
| RegularGrids.EpsSymmetric | libsharp/sharp_geomhelpers.c:245-250 | eps(J-j, J) = eps(j, J) |
| RegularGrids.ComputeGaussRing | libsharp/sharp_geomhelpers.c:190-195 | one pass of the Gauss ring loop: theta = acos(-x), nph = nphi, phi0 = 0, ofs = m*stride_lat, stride = stride_lon, weight scaled by 2 pi/nphi |
| RegularGrids.FillGaussRings | libsharp/sharp_geomhelpers.c:188-196 | every entry of the node and weight arrays is turned in place into the Gauss ring built from its old values |
| RegularGrids.MakeGaussGeom | libsharp/sharp_geomhelpers.c:175-207 | the Gauss builder fails with NonConvergence iff some root solve does not converge; otherwise ring m is the Gauss ring from node and weight m, and the rings hold nrings*nphi samples |
| RegularGrids.GaussRingsFromTable | libsharp/sharp_geomhelpers.c:187-196 | rings built from the Gauss-Legendre table are the Gauss rings |
| RegularGrids.GaussRingsSymmetric | libsharp/sharp_geomhelpers.c:187-196 | rings m and nrings-1-m carry equal weights; when acos(-y) = pi - acos(y), their colatitudes sum to pi |
| RegularGrids.ComputeEcpRing | libsharp/sharp_geomhelpers.c:226-231 | one pass of the ECP ring loop: theta = (m+0.5) pi/nrings, nph = nphi, the caller's phi0, ofs = m*stride_lat, weight scaled by 2 pi/nphi |
| RegularGrids.FillEcpRings | libsharp/sharp_geomhelpers.c:224-232 | every weight entry is turned in place into the ECP ring built from it |
| RegularGrids.MakeEcpGeom | libsharp/sharp_geomhelpers.c:209-243 | the ECP builder fails with InvalidConfiguration iff nrings is odd; otherwise ring m is the ECP ring with Driscoll-Healy weight m of bandwidth nrings/2, and the rings hold nrings*nphi samples |
| RegularGrids.EcpTheta | libsharp/sharp_geomhelpers.c:226 | the colatitude (m + 0.5) pi / nrings, the midpoint of band m |
| RegularGrids.EcpThetaBounds | libsharp/sharp_geomhelpers.c:226 | every ECP colatitude lies strictly between 0 and pi |
| RegularGrids.EcpThetaIncreasing | libsharp/sharp_geomhelpers.c:226 | ECP colatitudes grow strictly with the ring index |
| RegularGrids.EcpThetaSymmetric | libsharp/sharp_geomhelpers.c:226 | theta[m] + theta[nrings-1-m] = pi |
| RegularGrids.Clamp | libsharp/sharp_geomhelpers.c:273-274 | raise to 1e-15, then lower to pi - 1e-15; the result always lies in [1e-15, pi - 1e-15], and values already inside are unchanged |
| RegularGrids.HwTheta | libsharp/sharp_geomhelpers.c:272-274 | the clamped colatitude pi m / (nrings - 1) |
| RegularGrids.KpDenominator | libsharp/sharp_geomhelpers.c:282 | the divisor 1 - 4 l^2 of the Keiner-Potts terms is never 0 |
| RegularGrids.KpLoop | libsharp/sharp_geomhelpers.c:279-282 | the inner loop, with the term of line 282 written out, returns the Keiner-Potts cosine sum over l = 0..lmax |
| RegularGrids.HwColatitude | libsharp/sharp_geomhelpers.c:272-274 | the HW colatitude m pi/(nrings-1), clamped into [1e-15, pi-1e-15] |
| RegularGrids.HwRingWeight | libsharp/sharp_geomhelpers.c:279-283 | the HW weight is 4 pi eps(m, 2 lmax)/lmax times the cosine sum, divided by nph |
| RegularGrids.ComputeHwRing | libsharp/sharp_geomhelpers.c:272-283 | one pass of the HW ring loop produces ring m of the HW table: clamped colatitude, nph = ppring, the caller's phi0, ofs = m*stride_lat, Keiner-Potts weight |
| RegularGrids.FillHwRings | libsharp/sharp_geomhelpers.c:270-284 | after the loop, entry k of the six arrays is ring k of the HW table |
| RegularGrids.MakeHwGeom | libsharp/sharp_geomhelpers.c:255-295 | the HW builder fails with InvalidConfiguration iff nrings is even; otherwise ring m is the HW ring, and the rings hold nrings*ppring samples |
| RegularGrids.HwThetaBounds | libsharp/sharp_geomhelpers.c:272-274 | every HW colatitude lies in [1e-15, pi-1e-15] |
| RegularGrids.ClampInterior | libsharp/sharp_geomhelpers.c:273-274 | the clamp leaves colatitudes already in [1e-15, pi-1e-15] unchanged |
| RegularGrids.ClampSymmetric | libsharp/sharp_geomhelpers.c:273-274 | the clamp commutes with the reflection theta -> pi - theta |
| RegularGrids.HwPoles | libsharp/sharp_geomhelpers.c:272-274 | the first ring sits at 1e-15 and the last at pi - 1e-15 |
| RegularGrids.HwThetaSymmetric | libsharp/sharp_geomhelpers.c:272-274 | HW colatitudes of rings m and nrings-1-m sum to pi |
| RegularGrids.HwPrefactorPositive | libsharp/sharp_geomhelpers.c:280 | for every ring m in 0..2 lmax, eps(m, 2 lmax) and the prefactor are positive |

## Left out

- Floating-point rounding, infinities and NaN: arithmetic is exact over the reals. So the model
  does not capture the accuracy of the Newton roots or the rounding of the sums.
- The values of `sin`, `cos`, `asin`, `acos` and `sqrt`, and of divisions by a divisor that may be
  zero (`1./n`, `pi/(4*bw)`, the Newton step): these are fields of the `Libm` parameter.
  - Hence the HEALPix colatitudes (asin/acos), the Gauss-Legendre root values, the Driscoll-Healy
    sine sums and the Keiner-Potts cosine sums are related only by their formulas.
  - Nothing is proved about their magnitudes: not that HEALPix colatitudes increase, not that the
    ECP or HW weights sum to about 4 pi, not that a Newton root is a zero of P_n.
- RegularGrids.GaussRingsSymmetric: the colatitude half holds under the stated hypothesis that
  `acos(-y) = pi - acos(y)`, because acos is left open.
- `sharp_make_geom_info`, the packager, is not part of this model. `Geometry.Package` stands for
  the hand-off: the result is the sequence of rings the six arrays describe.
- `RALLOC`, `DEALLOC` and `SET_ARRAY`: memory management is left out. The arrays are allocated by
  the fill methods, and the unweighted HEALPix entry point allocates a table of ones.
- Machine-integer width: `int` and `ptrdiff_t` are unbounded integers, so overflow of
  `12*nside*nside`, of `4*l*l` or of `m*stride_lat` is not modelled.
- Process aborts: the failed `UTIL_ASSERT` becomes an `Err` result, and no table is returned. For
  ECP and HW the parity check runs before any ring is computed. In the Gauss builder the arrays may
  already be partly written when a later root fails to converge, but the model returns no rings
  then.
- Degenerate inputs the C code does not guard, which only produce infinities or NaN there, are
  excluded by preconditions:
  - `nphi >= 1` and `ppring >= 1` (division by `nphi` at lines 195 and 231);
  - RegularGrids.MakeHwGeom requires `nrings != 1`: one ring passes the odd check, but `lmax = 0`
    and `nrings-1 = 0` are then divisors (lines 268, 272, 280);
  - ring counts and `nside` are non-negative, or at least 1 for HEALPix (negative sizes make the
    allocations invalid).
- GaussLegendre.SolveRoot and GaussLegendre.MirrorFill take the Newton pass and the first guesses
  as function parameters. `GaussLegendreTable` instantiates them with `NewtonFn` and `Guesses`.
  `NewtonPass` is the imperative inner loop plus Newton step, and its contract ties it to
  `NewtonFn`. The model's Newton loop applies `NewtonFn` rather than calling `NewtonPass`.
- RegularGrids.HwRingWeight writes the final scaling `prefac*wgt/nph` through the named function
  `PerSample`. The sum loops `KpLoop` and `ComputeDhWeight` write their terms out as the source does.
