/**
 * The regular-grid builders of libsharp: Gauss-Legendre rings, equidistant
 * (ECP) rings with Driscoll-Healy weights, and the Keiner-Potts (HW) grid with
 * samples at both poles. Each fills six parallel arrays ring by ring; every
 * ring has the same number of samples, the same sample stride and an offset
 * linear in the ring index.
 */
module RegularGrids {
  import opened Geometry
  import GaussLegendre

  // ---------------------------------------------------------------------------
  // Shared ring layout

  /** A quadrature weight w scaled by 2 pi / nphi, as the Gauss and ECP builders store it. */
  function PerSampleWeight(w: real, nphi: int): real
    requires nphi >= 1
  {
    w * (2.0 * Pi / nphi as real)
  }

  /** Rings that all carry c samples hold |rings| * c samples together. */
  lemma {:induction false} RegularSamples(rings: seq<Ring>, c: int)
    requires forall m :: 0 <= m < |rings| ==> rings[m].nph == c
    ensures TotalSamples(rings) == |rings| * c
  {
    if rings != [] {
      var prefix := rings[..|rings| - 1];
      assert forall m :: 0 <= m < |prefix| ==> prefix[m] == rings[m];
      RegularSamples(prefix, c);
    }
  }

  // ---------------------------------------------------------------------------
  // Driscoll-Healy weights (makeweights)

  /** pi / (4 bw), the angular unit of the weight sums. */
  function Fudge(lib: Libm, bw: int): real
  {
    lib.fdiv(Pi, (4 * bw) as real)
  }

  /** Term k of the sum for weight j: sin((2j+1)(2k+1) fudge) / (2k+1). */
  function DhTerm(lib: Libm, fudge: real, j: int, k: int): real
  {
    1.0 / (2 * k + 1) as real * lib.sin(((2 * j + 1) * (2 * k + 1)) as real * fudge)
  }

  /** The first count terms of the sum for weight j. */
  function DhSum(lib: Libm, fudge: real, j: int, count: nat): real
  {
    if count == 0 then 0.0 else DhSum(lib, fudge, j, count - 1) + DhTerm(lib, fudge, j, count - 1)
  }

  /** Weight j of 2 bw rings, for the angular unit fudge. */
  function DhWeightFrom(lib: Libm, bw: int, j: int, fudge: real): real
    requires bw >= 1
  {
    DhSum(lib, fudge, j, bw) * lib.sin((2 * j + 1) as real * fudge) * (2.0 / bw as real)
  }

  /** Weight j of an equidistant grid of 2 bw rings. */
  function DhWeight(lib: Libm, bw: int, j: int): real
    requires bw >= 1
  {
    DhWeightFrom(lib, bw, j, Fudge(lib, bw))
  }

  /** One pass of the outer loop of makeweights: the sum for weight j, scaled. */
  method ComputeDhWeight(lib: Libm, bw: int, j: int, fudge: real) returns (tmpsum: real)
    requires bw >= 1
    ensures tmpsum == DhWeightFrom(lib, bw, j, fudge)
  {
    tmpsum := 0.0;
    for k := 0 to bw
      invariant tmpsum == DhSum(lib, fudge, j, k)
    {
      tmpsum := tmpsum + 1.0 / (2 * k + 1) as real * lib.sin(((2 * j + 1) * (2 * k + 1)) as real * fudge);
    }
    tmpsum := tmpsum * lib.sin((2 * j + 1) as real * fudge);
    tmpsum := tmpsum * (2.0 / bw as real);
  }

  /**
   * makeweights: the 2 bw Driscoll-Healy weights, each a sum of bw sine terms.
   * Entries from 2 bw on are left alone.
   */
  method MakeWeights(lib: Libm, bw: int, weights: array<real>)
    requires 0 <= bw && 2 * bw <= weights.Length
    modifies weights
    ensures forall j :: 0 <= j < 2 * bw ==> weights[j] == DhWeight(lib, bw, j)
    ensures forall j :: 2 * bw <= j < weights.Length ==> weights[j] == old(weights[j])
  {
    var fudge := Fudge(lib, bw);
    for j := 0 to 2 * bw
      invariant forall i :: 0 <= i < j ==> weights[i] == DhWeight(lib, bw, i)
      invariant forall i :: 2 * bw <= i < weights.Length ==> weights[i] == old(weights[i])
    {
      weights[j] := ComputeDhWeight(lib, bw, j, fudge);
    }
  }

  // ---------------------------------------------------------------------------
  // The eps boundary indicator

  /** 1/2 at the two ends j = 0 and j = J, 1 strictly between them, 0 outside. */
  function Eps(j: int, J: int): (e: real)
    ensures e == 0.0 || e == 0.5 || e == 1.0
    ensures 0 <= j <= J ==> e > 0.0
  {
    if j == 0 || j == J then 0.5
    else if 0 < j < J then 1.0
    else 0.0
  }

  /** The three values of eps and exactly when each occurs. */
  lemma EpsValues(j: int, J: int)
    ensures Eps(j, J) == 0.5 <==> (j == 0 || j == J)
    ensures Eps(j, J) == 1.0 <==> (0 < j < J)
    ensures Eps(j, J) == 0.0 <==> (j != 0 && j != J && !(0 < j < J))
  {
  }

  /** eps is symmetric about the middle of [0, J]. */
  lemma EpsSymmetric(j: int, J: int)
    ensures Eps(J - j, J) == Eps(j, J)
  {
  }

  // ---------------------------------------------------------------------------
  // Gauss-Legendre grid (sharp_make_gauss_geom_info)

  /** The Newton solves of a Gauss grid of nrings rings all converge. */
  predicate GaussConverges(lib: Libm, nrings: int)
  {
    GaussLegendre.AllSolved(GaussLegendre.NewtonFn(lib, nrings), GaussLegendre.Guesses(lib, nrings), nrings)
  }

  /** Node m of the Gauss-Legendre table of order nrings. */
  function GaussNode(lib: Libm, nrings: int, m: int): real
    requires 0 <= m < nrings && GaussConverges(lib, nrings)
  {
    GaussLegendre.Node(GaussLegendre.NewtonFn(lib, nrings), GaussLegendre.Guesses(lib, nrings), nrings, m)
  }

  /** Quadrature weight m of the Gauss-Legendre table of order nrings. */
  function GaussNodeWeight(lib: Libm, nrings: int, m: int): real
    requires 0 <= m < nrings && GaussConverges(lib, nrings)
  {
    GaussLegendre.NodeWeight(lib, GaussLegendre.NewtonFn(lib, nrings), GaussLegendre.Guesses(lib, nrings), nrings, m)
  }

  /** The ring m the Gauss builder makes from node x and weight w: colatitude acos(-x), weight w * 2 pi / nphi, no phase shift. */
  function GaussRingOf(lib: Libm, nphi: int, strideLon: int, strideLat: int, m: int, x: real, w: real): Ring
    requires nphi >= 1
  {
    Ring(lib.acos(-x), PerSampleWeight(w, nphi), nphi, 0.0, m * strideLat, strideLon)
  }

  /** Ring m of a Gauss grid of nrings rings. */
  function GaussRing(lib: Libm, nrings: int, nphi: int, strideLon: int, strideLat: int, m: int): Ring
    requires 0 <= m < nrings && nphi >= 1 && GaussConverges(lib, nrings)
  {
    GaussRingOf(lib, nphi, strideLon, strideLat, m, GaussNode(lib, nrings, m), GaussNodeWeight(lib, nrings, m))
  }

  /** One pass of the Gauss ring loop, from the node x and weight w the table left at index m. */
  method ComputeGaussRing(lib: Libm, nphi: int, strideLon: int, strideLat: int, m: int, x: real, w: real)
    returns (theta: real, weight: real, nph: int, phi0: real, ofs: int, stride: int)
    requires nphi >= 1
    ensures Ring(theta, weight, nph, phi0, ofs, stride) == GaussRingOf(lib, nphi, strideLon, strideLat, m, x, w)
  {
    theta := lib.acos(-x);
    nph := nphi;
    phi0 := 0.0;
    ofs := m * strideLat;
    stride := strideLon;
    weight := w * (2.0 * Pi / nphi as real);
  }

  /**
   * The ring loop of sharp_make_gauss_geom_info: node x_m becomes the
   * colatitude acos(-x_m) and weight w_m is scaled per sample, in place.
   */
  method FillGaussRings(lib: Libm, nphi: int, strideLon: int, strideLat: int, theta: array<real>, weight: array<real>)
    returns (nph: array<int>, phi0: array<real>, ofs: array<int>, stride: array<int>)
    requires nphi >= 1 && theta.Length == weight.Length && theta != weight
    modifies theta, weight
    ensures fresh(nph) && fresh(phi0) && fresh(ofs) && fresh(stride)
    ensures nph.Length == phi0.Length == ofs.Length == stride.Length == theta.Length
    ensures forall k :: 0 <= k < theta.Length ==>
      Ring(theta[k], weight[k], nph[k], phi0[k], ofs[k], stride[k])
      == GaussRingOf(lib, nphi, strideLon, strideLat, k, old(theta[k]), old(weight[k]))
  {
    var nrings := theta.Length;
    ghost var xs, ws := theta[..], weight[..];
    nph := new int[nrings];
    phi0 := new real[nrings];
    ofs := new int[nrings];
    stride := new int[nrings];
    for m := 0 to nrings
      invariant forall k :: m <= k < nrings ==> theta[k] == xs[k] && weight[k] == ws[k]
      invariant forall k :: 0 <= k < m ==>
        Ring(theta[k], weight[k], nph[k], phi0[k], ofs[k], stride[k])
        == GaussRingOf(lib, nphi, strideLon, strideLat, k, xs[k], ws[k])
    {
      var t, w, n, p, o, s := ComputeGaussRing(lib, nphi, strideLon, strideLat, m, theta[m], weight[m]);
      theta[m], weight[m], nph[m], phi0[m], ofs[m], stride[m] := t, w, n, p, o, s;
    }
  }

  /**
   * sharp_make_gauss_geom_info: the Gauss-Legendre table of order nrings, with
   * each node turned into a colatitude and each weight scaled per sample.
   */
  method MakeGaussGeom(lib: Libm, nrings: int, nphi: int, strideLon: int, strideLat: int)
    returns (r: Result<seq<Ring>>)
    requires nrings >= 0 && nphi >= 1
    ensures r.Ok? <==> GaussConverges(lib, nrings)
    ensures r.Err? ==> r.error == NonConvergence
    ensures r.Ok? ==> |r.value| == nrings
    ensures r.Ok? ==> forall m :: 0 <= m < nrings ==> r.value[m] == GaussRing(lib, nrings, nphi, strideLon, strideLat, m)
    ensures r.Ok? ==> TotalSamples(r.value) == nrings * nphi
  {
    var theta := new real[nrings];
    var weight := new real[nrings];
    var table := GaussLegendre.GaussLegendreTable(lib, nrings, theta, weight);
    if table.Err? {
      return Err(table.error);
    }
    ghost var xs, ws := theta[..], weight[..];
    var nph, phi0, ofs, stride := FillGaussRings(lib, nphi, strideLon, strideLat, theta, weight);
    var rings := Package(theta, weight, nph, phi0, ofs, stride);
    GaussRingsFromTable(lib, nrings, nphi, strideLon, strideLat, xs, ws, rings);
    RegularSamples(rings, nphi);
    r := Ok(rings);
  }

  /** Rings built from the Gauss-Legendre table are the Gauss rings. */
  lemma GaussRingsFromTable(lib: Libm, nrings: int, nphi: int, strideLon: int, strideLat: int,
                            xs: seq<real>, ws: seq<real>, rings: seq<Ring>)
    requires nphi >= 1 && GaussConverges(lib, nrings) && |xs| == |ws| == |rings| == nrings
    requires forall j :: 0 <= j < nrings ==> xs[j] == GaussNode(lib, nrings, j) && ws[j] == GaussNodeWeight(lib, nrings, j)
    requires forall k :: 0 <= k < nrings ==>
      rings[k] == GaussRingOf(lib, nphi, strideLon, strideLat, k, xs[k], ws[k])
    ensures forall m :: 0 <= m < nrings ==> rings[m] == GaussRing(lib, nrings, nphi, strideLon, strideLat, m)
  {
  }

  /**
   * Rings m and nrings-1-m of a Gauss grid carry the same weight; when acos
   * is odd about pi/2, their colatitudes are mirror images about the equator.
   */
  lemma GaussRingsSymmetric(lib: Libm, nrings: int, nphi: int, strideLon: int, strideLat: int, m: int)
    requires 0 <= m < nrings && nphi >= 1 && GaussConverges(lib, nrings)
    ensures GaussRing(lib, nrings, nphi, strideLon, strideLat, m).weight
         == GaussRing(lib, nrings, nphi, strideLon, strideLat, nrings - 1 - m).weight
    ensures (forall y :: lib.acos(-y) == Pi - lib.acos(y)) && 2 * m + 1 != nrings ==>
      GaussRing(lib, nrings, nphi, strideLon, strideLat, m).theta
      + GaussRing(lib, nrings, nphi, strideLon, strideLat, nrings - 1 - m).theta == Pi
  {
    var pass, guess := GaussLegendre.NewtonFn(lib, nrings), GaussLegendre.Guesses(lib, nrings);
    GaussLegendre.NodesSymmetric(lib, pass, guess, nrings, m);
  }

  // ---------------------------------------------------------------------------
  // Equidistant grid (sharp_make_ecp_geom_info)

  /** Colatitude of ring m: the midpoint (m + 1/2) pi / nrings of its band. */
  function EcpTheta(nrings: int, m: int): real
    requires nrings >= 1
  {
    ((m as real + 0.5) * Pi) / nrings as real
  }

  /** Ring m of an equidistant grid of an even number of rings. */
  function EcpRing(lib: Libm, nrings: int, nphi: int, phi0: real, strideLon: int, strideLat: int, m: int): Ring
    requires nrings >= 2 && nphi >= 1
  {
    EcpRingOf(nrings, nphi, phi0, strideLon, strideLat, m, DhWeight(lib, nrings / 2, m))
  }

  /** The ring m the ECP builder makes from the Driscoll-Healy weight w. */
  function EcpRingOf(nrings: int, nphi: int, phi0: real, strideLon: int, strideLat: int, m: int, w: real): Ring
    requires nrings >= 1 && nphi >= 1
  {
    Ring(EcpTheta(nrings, m), PerSampleWeight(w, nphi), nphi, phi0, m * strideLat, strideLon)
  }

  /** One pass of the ECP ring loop, from the weight w makeweights left at index m. */
  method ComputeEcpRing(nrings: int, nphi: int, phi0: real, strideLon: int, strideLat: int, m: int, w: real)
    returns (theta: real, weight: real, nph: int, phi0_: real, ofs: int, stride: int)
    requires nrings >= 1 && nphi >= 1
    ensures Ring(theta, weight, nph, phi0_, ofs, stride) == EcpRingOf(nrings, nphi, phi0, strideLon, strideLat, m, w)
  {
    theta := ((m as real + 0.5) * Pi) / nrings as real;
    nph := nphi;
    phi0_ := phi0;
    ofs := m * strideLat;
    stride := strideLon;
    weight := w * (2.0 * Pi / nphi as real);
  }

  /**
   * The ring loop of sharp_make_ecp_geom_info: colatitudes at band midpoints,
   * and the weights makeweights left in weight scaled per sample, in place.
   */
  method FillEcpRings(nphi: int, phi0: real, strideLon: int, strideLat: int, weight: array<real>)
    returns (theta: array<real>, nph: array<int>, phi0s: array<real>, ofs: array<int>, stride: array<int>)
    requires nphi >= 1
    modifies weight
    ensures fresh(theta) && fresh(nph) && fresh(phi0s) && fresh(ofs) && fresh(stride)
    ensures theta.Length == nph.Length == phi0s.Length == ofs.Length == stride.Length == weight.Length
    ensures forall k :: 0 <= k < weight.Length ==>
      Ring(theta[k], weight[k], nph[k], phi0s[k], ofs[k], stride[k])
      == EcpRingOf(weight.Length, nphi, phi0, strideLon, strideLat, k, old(weight[k]))
  {
    var nrings := weight.Length;
    ghost var ws := weight[..];
    theta := new real[nrings];
    nph := new int[nrings];
    phi0s := new real[nrings];
    ofs := new int[nrings];
    stride := new int[nrings];
    for m := 0 to nrings
      invariant forall k :: m <= k < nrings ==> weight[k] == ws[k]
      invariant forall k :: 0 <= k < m ==>
        Ring(theta[k], weight[k], nph[k], phi0s[k], ofs[k], stride[k])
        == EcpRingOf(nrings, nphi, phi0, strideLon, strideLat, k, ws[k])
    {
      var t, w, n, p, o, s := ComputeEcpRing(nrings, nphi, phi0, strideLon, strideLat, m, weight[m]);
      theta[m], weight[m], nph[m], phi0s[m], ofs[m], stride[m] := t, w, n, p, o, s;
    }
  }

  /**
   * sharp_make_ecp_geom_info: an even number of equidistant rings with
   * Driscoll-Healy weights; an odd count is rejected.
   */
  method MakeEcpGeom(lib: Libm, nrings: int, nphi: int, phi0: real, strideLon: int, strideLat: int)
    returns (r: Result<seq<Ring>>)
    requires nrings >= 0 && nphi >= 1
    ensures r.Ok? <==> nrings % 2 == 0
    ensures r.Err? ==> r.error == InvalidConfiguration
    ensures r.Ok? ==> |r.value| == nrings
    ensures r.Ok? ==> forall m :: 0 <= m < nrings ==>
      r.value[m] == EcpRing(lib, nrings, nphi, phi0, strideLon, strideLat, m)
    ensures r.Ok? ==> TotalSamples(r.value) == nrings * nphi
  {
    var weight := new real[nrings];
    if nrings % 2 != 0 {
      return Err(InvalidConfiguration);
    }
    MakeWeights(lib, nrings / 2, weight);
    var theta, nph, phi0s, ofs, stride := FillEcpRings(nphi, phi0, strideLon, strideLat, weight);
    var rings := Package(theta, weight, nph, phi0s, ofs, stride);
    RegularSamples(rings, nphi);
    r := Ok(rings);
  }

  /** Every equidistant colatitude lies strictly between the poles. */
  lemma EcpThetaBounds(nrings: int, m: int)
    requires 0 <= m < nrings
    ensures 0.0 < EcpTheta(nrings, m) < Pi
  {
    var n := nrings as real;
    var a := (m as real + 0.5) * Pi;
    assert a < n * Pi by {
      assert m as real + 0.5 < n;
    }
    QuotientBelow(a, n, Pi);
    assert 0.0 < a;
  }

  /** a < n c with n > 0 puts a / n below c. */
  lemma QuotientBelow(a: real, n: real, c: real)
    requires n > 0.0 && a < n * c
    ensures a / n < c
  {
    assert (c - a / n) * n == c * n - a;
  }

  /** Equidistant colatitudes grow strictly with the ring index. */
  lemma EcpThetaIncreasing(nrings: int, m: int, m': int)
    requires nrings >= 1 && m < m'
    ensures EcpTheta(nrings, m) < EcpTheta(nrings, m')
  {
    assert (m as real + 0.5) * Pi < (m' as real + 0.5) * Pi;
  }

  /** Rings m and nrings-1-m are mirror images about the equator. */
  lemma EcpThetaSymmetric(nrings: int, m: int)
    requires nrings >= 1
    ensures EcpTheta(nrings, m) + EcpTheta(nrings, nrings - 1 - m) == Pi
  {
    var n := nrings as real;
    calc {
      EcpTheta(nrings, m) + EcpTheta(nrings, nrings - 1 - m);
      ((m as real + 0.5) * Pi) / n + (((nrings - 1 - m) as real + 0.5) * Pi) / n;
      ((m as real + 0.5) * Pi + ((nrings - 1 - m) as real + 0.5) * Pi) / n;
      (n * Pi) / n;
    }
  }

  // ---------------------------------------------------------------------------
  // Keiner-Potts grid (sharp_make_hw_geom_info)

  /** The colatitudes of the HW grid are kept at least 1e-15 away from both poles. */
  const ThetaMin: real := 0.000000000000001

  /** Raise t to ThetaMin, then lower it to pi - ThetaMin. */
  function Clamp(t: real): (c: real)
    ensures ThetaMin <= c <= Pi - ThetaMin
    ensures ThetaMin <= t <= Pi - ThetaMin ==> c == t
  {
    var a := if t < ThetaMin then ThetaMin else t;
    if a > Pi - ThetaMin then Pi - ThetaMin else a
  }

  /** Colatitude of ring m: m pi / (nrings - 1), clamped away from the poles. */
  function HwTheta(nrings: int, m: int): real
    requires nrings >= 2
  {
    Clamp((Pi * m as real) / (nrings - 1) as real)
  }

  /** 1 - 4 l^2 never vanishes, so the Keiner-Potts terms are well defined. */
  lemma KpDenominator(l: int)
    ensures 1 - 4 * l * l != 0
  {
    if l != 0 {
      assert l * l >= 1 by {
        if l > 0 {
          assert l * l >= l;
        } else {
          assert l * l == (-l) * (-l) >= -l;
        }
      }
    }
  }

  /** Term l of the Keiner-Potts cosine sum for ring m. */
  function KpTerm(lib: Libm, lmax: int, m: int, l: int): real
    requires lmax >= 1
  {
    KpDenominator(l);
    Eps(l, lmax) / (1 - 4 * l * l) as real * lib.cos((Pi * m as real * l as real) / lmax as real)
  }

  /** The first count terms of the cosine sum for ring m. */
  function KpSum(lib: Libm, lmax: int, m: int, count: nat): real
    requires lmax >= 1
  {
    if count == 0 then 0.0 else KpSum(lib, lmax, m, count - 1) + KpTerm(lib, lmax, m, count - 1)
  }

  /** The factor 4 pi eps(m, 2 lmax) / lmax in front of the cosine sum. */
  function HwPrefactor(lmax: int, m: int): real
    requires lmax >= 1
  {
    4.0 * Pi * Eps(m, 2 * lmax) / lmax as real
  }

  /** A prefactor times a sum, shared among the samples of a ring. */
  function PerSample(prefac: real, sum: real, nph: int): real
    requires nph >= 1
  {
    prefac * sum / nph as real
  }

  /** Weight of ring m: prefactor times the cosine sum over l = 0 .. lmax, per sample. */
  function HwWeight(lib: Libm, lmax: int, m: int, ppring: int): real
    requires lmax >= 1 && ppring >= 1
  {
    PerSample(HwPrefactor(lmax, m), KpSum(lib, lmax, m, lmax + 1), ppring)
  }

  /** Ring m of a HW grid of an odd number nrings >= 3 of rings. */
  function HwRing(lib: Libm, nrings: int, ppring: int, phi0: real, strideLon: int, strideLat: int, m: int): Ring
    requires nrings >= 3 && ppring >= 1
  {
    Ring(HwTheta(nrings, m), HwWeight(lib, (nrings - 1) / 2, m, ppring), ppring, phi0, m * strideLat, strideLon)
  }

  /** The rings of a HW grid, for the ring loop to be checked against. */
  lemma HwTable(lib: Libm, nrings: int, ppring: int, phi0: real, strideLon: int, strideLat: int)
    returns (table: seq<Ring>)
    requires nrings >= 3 && ppring >= 1
    ensures |table| == nrings
    ensures forall k {:trigger HwRing(lib, nrings, ppring, phi0, strideLon, strideLat, k)} :: 0 <= k < nrings ==>
      table[k] == HwRing(lib, nrings, ppring, phi0, strideLon, strideLat, k)
  {
    table := seq(nrings, k => HwRing(lib, nrings, ppring, phi0, strideLon, strideLat, k));
  }

  /** The inner loop of the HW ring loop: the Keiner-Potts cosine sum over l = 0 .. lmax. */
  method KpLoop(lib: Libm, lmax: int, m: int) returns (wgt: real)
    requires lmax >= 1
    ensures wgt == KpSum(lib, lmax, m, lmax + 1)
  {
    wgt := 0.0;
    for l := 0 to lmax + 1
      invariant wgt == KpSum(lib, lmax, m, l)
    {
      KpDenominator(l);
      var term := Eps(l, lmax) / (1 - 4 * l * l) as real * lib.cos((Pi * m as real * l as real) / lmax as real);
      assert term == KpTerm(lib, lmax, m, l);
      wgt := wgt + term;
    }
  }

  /** The colatitude of ring m as the HW ring loop computes it, then clamps it. */
  method HwColatitude(nrings: int, m: int) returns (theta: real)
    requires nrings >= 2
    ensures theta == HwTheta(nrings, m)
  {
    theta := (Pi * m as real) / (nrings - 1) as real;
    if theta < ThetaMin {
      theta := ThetaMin;
    }
    if theta > Pi - ThetaMin {
      theta := Pi - ThetaMin;
    }
  }

  /** The weight of ring m as the HW ring loop computes it: prefactor, cosine sum, per sample. */
  method HwRingWeight(lib: Libm, lmax: int, m: int, nph: int) returns (weight: real)
    requires lmax >= 1 && nph >= 1
    ensures weight == HwWeight(lib, lmax, m, nph)
  {
    var prefac := 4.0 * Pi * Eps(m, 2 * lmax) / lmax as real;
    var wgt := KpLoop(lib, lmax, m);
    weight := PerSample(prefac, wgt, nph);
  }

  /** One pass of the HW ring loop: the clamped colatitude and the Keiner-Potts weight of ring m. */
  method ComputeHwRing(lib: Libm, nrings: int, ppring: int, phi0: real, strideLon: int, strideLat: int, m: int,
                       ghost table: seq<Ring>)
    returns (theta: real, weight: real, nph: int, phi0_: real, ofs: int, stride: int)
    requires nrings >= 3 && nrings % 2 == 1 && ppring >= 1 && 0 <= m < nrings && |table| == nrings
    requires forall k {:trigger HwRing(lib, nrings, ppring, phi0, strideLon, strideLat, k)} :: 0 <= k < nrings ==>
      table[k] == HwRing(lib, nrings, ppring, phi0, strideLon, strideLat, k)
    ensures Ring(theta, weight, nph, phi0_, ofs, stride) == table[m]
  {
    var lmax := (nrings - 1) / 2;
    theta := HwColatitude(nrings, m);
    nph := ppring;
    phi0_ := phi0;
    ofs := m * strideLat;
    stride := strideLon;
    weight := HwRingWeight(lib, lmax, m, nph);
    assert table[m] == HwRing(lib, nrings, ppring, phi0, strideLon, strideLat, m);
  }

  /**
   * sharp_make_hw_geom_info: an odd number of equiangular rings from pole to
   * pole with Keiner-Potts weights; an even count is rejected.
   */
  method MakeHwGeom(lib: Libm, nrings: int, ppring: int, phi0: real, strideLon: int, strideLat: int)
    returns (r: Result<seq<Ring>>)
    requires nrings >= 0 && nrings != 1 && ppring >= 1
    ensures r.Ok? <==> nrings % 2 == 1
    ensures r.Err? ==> r.error == InvalidConfiguration
    ensures r.Ok? ==> |r.value| == nrings
    ensures r.Ok? ==> forall m :: 0 <= m < nrings ==>
      r.value[m] == HwRing(lib, nrings, ppring, phi0, strideLon, strideLat, m)
    ensures r.Ok? ==> TotalSamples(r.value) == nrings * ppring
  {
    if nrings % 2 != 1 {
      return Err(InvalidConfiguration);
    }
    ghost var table := HwTable(lib, nrings, ppring, phi0, strideLon, strideLat);
    var theta, weight, nph, phi0s, ofs, stride := FillHwRings(lib, nrings, ppring, phi0, strideLon, strideLat, table);
    var rings := Package(theta, weight, nph, phi0s, ofs, stride);
    forall m | 0 <= m < |rings|
      ensures rings[m].nph == ppring
    {
      assert rings[m] == HwRing(lib, nrings, ppring, phi0, strideLon, strideLat, m);
    }
    RegularSamples(rings, ppring);
    r := Ok(rings);
  }

  /** The ring loop of sharp_make_hw_geom_info, filling the six arrays. */
  method FillHwRings(lib: Libm, nrings: int, ppring: int, phi0: real, strideLon: int, strideLat: int,
                     ghost table: seq<Ring>)
    returns (theta: array<real>, weight: array<real>, nph: array<int>, phi0s: array<real>, ofs: array<int>, stride: array<int>)
    requires nrings >= 3 && nrings % 2 == 1 && ppring >= 1 && |table| == nrings
    requires forall k {:trigger HwRing(lib, nrings, ppring, phi0, strideLon, strideLat, k)} :: 0 <= k < nrings ==>
      table[k] == HwRing(lib, nrings, ppring, phi0, strideLon, strideLat, k)
    ensures theta.Length == weight.Length == nph.Length == phi0s.Length == ofs.Length == stride.Length == nrings
    ensures forall k :: 0 <= k < nrings ==> Ring(theta[k], weight[k], nph[k], phi0s[k], ofs[k], stride[k]) == table[k]
  {
    theta := new real[nrings];
    weight := new real[nrings];
    nph := new int[nrings];
    phi0s := new real[nrings];
    ofs := new int[nrings];
    stride := new int[nrings];
    for m := 0 to nrings
      invariant forall k :: 0 <= k < m ==> Ring(theta[k], weight[k], nph[k], phi0s[k], ofs[k], stride[k]) == table[k]
    {
      var t, w, n, p, o, s := ComputeHwRing(lib, nrings, ppring, phi0, strideLon, strideLat, m, table);
      theta[m], weight[m], nph[m], phi0s[m], ofs[m], stride[m] := t, w, n, p, o, s;
    }
  }

  /** The clamp keeps every colatitude within [ThetaMin, pi - ThetaMin]. */
  lemma HwThetaBounds(nrings: int, m: int)
    requires nrings >= 2
    ensures ThetaMin <= HwTheta(nrings, m) <= Pi - ThetaMin
  {
  }

  /** The clamp leaves colatitudes already inside [ThetaMin, pi - ThetaMin] alone. */
  lemma ClampInterior(t: real)
    requires ThetaMin <= t <= Pi - ThetaMin
    ensures Clamp(t) == t
  {
  }

  /** The clamp commutes with reflection about the equator. */
  lemma ClampSymmetric(t: real)
    ensures Clamp(Pi - t) == Pi - Clamp(t)
  {
  }

  /** The first and last rings sit ThetaMin away from the north and south poles. */
  lemma HwPoles(nrings: int)
    requires nrings >= 2
    ensures HwTheta(nrings, 0) == ThetaMin
    ensures HwTheta(nrings, nrings - 1) == Pi - ThetaMin
  {
    var d := (nrings - 1) as real;
    assert (Pi * d) / d == Pi;
  }

  /** Rings m and nrings-1-m are mirror images about the equator. */
  lemma HwThetaSymmetric(nrings: int, m: int)
    requires nrings >= 2
    ensures HwTheta(nrings, m) + HwTheta(nrings, nrings - 1 - m) == Pi
  {
    var d := (nrings - 1) as real;
    var t := (Pi * m as real) / d;
    calc {
      (Pi * (nrings - 1 - m) as real) / d;
      (Pi * d - Pi * m as real) / d;
      (Pi * d) / d - (Pi * m as real) / d;
      Pi - t;
    }
    ClampSymmetric(t);
  }

  /** On every ring of the grid, m in 0 .. 2 lmax, the prefactor is positive: no ring has weight forced to 0. */
  lemma HwPrefactorPositive(lmax: int, m: int)
    requires lmax >= 1 && 0 <= m <= 2 * lmax
    ensures Eps(m, 2 * lmax) > 0.0
    ensures HwPrefactor(lmax, m) > 0.0
  {
    var e := Eps(m, 2 * lmax);
    assert 4.0 * Pi * e > 0.0;
  }
}
