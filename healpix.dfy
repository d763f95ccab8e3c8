/**
 * The RING-ordered HEALPix layout: 4*nside-1 iso-latitude rings, each mapped to
 * its northern mirror ring, its sample count, its half-pixel phase shift and its
 * offset in a buffer of 12*nside^2 pixels.
 */
module Healpix {
  import opened Geometry

  function NRings(nside: int): int
  {
    4 * nside - 1
  }

  function Npix(nside: int): (p: int)
    requires nside >= 1
    ensures p >= 12 * nside
  {
    assert nside * nside >= nside;
    nside * nside * 12
  }

  /** Pixels in one polar cap. */
  function Ncap(nside: int): int
  {
    2 * nside * (nside - 1)
  }

  /**
   * The northern ring (1-based) that ring index m mirrors; northern rings and the
   * equator mirror themselves. It indexes the band-weight table of length 2*nside.
   */
  function NorthRing(nside: int, m: int): (nr: int)
    requires nside >= 1 && 0 <= m < NRings(nside)
    ensures 1 <= nr <= 2 * nside
  {
    var ring := m + 1;
    if ring > 2 * nside then 4 * nside - ring else ring
  }

  predicate IsSouth(nside: int, m: int)
    requires nside >= 1 && 0 <= m < NRings(nside)
  {
    NorthRing(nside, m) != m + 1
  }

  /** Samples on the northern ring nr: 4*nr in the polar cap, 4*nside in the belt. */
  function RingNph(nside: int, nr: int): (n: int)
    requires nside >= 1 && 1 <= nr <= 2 * nside
    ensures 4 <= n <= 4 * nside
  {
    if nr < nside then 4 * nr else 4 * nside
  }

  /** Offset, in pixels, of the first pixel of the northern ring nr. */
  function NorthOfs(nside: int, nr: int): (ofs: int)
    requires nside >= 1 && 1 <= nr <= 2 * nside
    ensures 0 <= ofs && ofs + RingNph(nside, nr) <= Npix(nside)
  {
    NorthOfsBound(nside, nr);
    if nr < nside then 2 * nr * (nr - 1) else Ncap(nside) + (nr - nside) * RingNph(nside, nr)
  }

  /** Every northern ring lies within the pixel buffer. */
  lemma NorthOfsBound(nside: int, nr: int)
    requires nside >= 1 && 1 <= nr <= 2 * nside
    ensures nr < nside ==> 0 <= 2 * nr * (nr - 1) && 2 * nr * (nr - 1) + 4 * nr <= Npix(nside)
    ensures nr >= nside ==>
      (0 <= Ncap(nside) + (nr - nside) * (4 * nside)
       && Ncap(nside) + (nr - nside) * (4 * nside) + 4 * nside <= Npix(nside))
  {
    if nr < nside {
      CapBound(nside, nr);
    } else {
      BeltBound(nside, nr - nside);
    }
  }

  /** A cap ring nr < nside ends at pixel 2 nr (nr + 1) <= 2 nside^2. */
  lemma CapBound(nside: int, nr: int)
    requires 1 <= nr < nside
    ensures 0 <= 2 * nr * (nr - 1) && 2 * nr * (nr - 1) + 4 * nr <= nside * nside * 12
  {
    MulBelow(nr, nr + 1, nside, nside);
    MulBelow(0, nr - 1, nr, nr - 1);
    assert 2 * nr * (nr - 1) + 4 * nr == 2 * (nr * (nr + 1));
  }

  /** Belt ring nside + d ends at pixel 2 nside (nside + 1) + 4 d nside <= 12 nside^2. */
  lemma BeltBound(nside: int, d: int)
    requires 1 <= nside && 0 <= d <= nside
    ensures 0 <= Ncap(nside) + d * (4 * nside)
    ensures Ncap(nside) + d * (4 * nside) + 4 * nside <= nside * nside * 12
  {
    MulBelow(1, nside, nside, nside);
    MulBelow(d, nside, nside, nside);
    MulBelow(0, nside - 1, nside, nside - 1);
    assert Ncap(nside) + d * (4 * nside) == 2 * (nside * (nside - 1)) + 4 * (d * nside);
  }

  /** Products of non-negative factors grow with the factors. */
  lemma MulBelow(a: int, b: int, c: int, d: int)
    requires 0 <= a <= c && 0 <= b <= d
    ensures a * b <= c * d
  {
    assert a * b <= c * b;
  }

  /** Colatitude of the northern ring nr (arcsine in the cap, arccosine in the belt). */
  function NorthTheta(lib: Libm, nside: int, nr: int): real
    requires nside >= 1 && 1 <= nr <= 2 * nside
  {
    if nr < nside then
      2.0 * lib.asin(lib.fdiv(nr as real, lib.sqrt(6.0) * nside as real))
    else
      var fact1 := (8 * nside) as real / Npix(nside) as real;
      lib.acos((2 * nside - nr) as real * fact1)
  }

  /** Phase of the first sample on northern ring nr. */
  function Phase(nside: int, nr: int): (phi0: real)
    requires nside >= 1 && 1 <= nr <= 2 * nside
    ensures phi0 == 0.0 <==> nr >= nside && (nr - nside) % 2 == 1
    ensures phi0 != 0.0 ==> phi0 == Pi / RingNph(nside, nr) as real
  {
    assert Pi / RingNph(nside, nr) as real > 0.0;
    var nph := RingNph(nside, nr);
    if nr < nside then Pi / nph as real
    else if (nr - nside) % 2 == 1 then 0.0
    else Pi / nph as real
  }

  /** Colatitude of ring m: southern rings reflect their northern mirror's colatitude. */
  function RingTheta(lib: Libm, nside: int, m: int): real
    requires nside >= 1 && 0 <= m < NRings(nside)
  {
    var theta := NorthTheta(lib, nside, NorthRing(nside, m));
    if IsSouth(nside, m) then Pi - theta else theta
  }

  /** Area of one pixel: the 4*pi of the sphere shared by npix pixels. */
  function PixelArea(nside: int): real
    requires nside >= 1
  {
    4.0 * Pi / Npix(nside) as real
  }

  /** Weight of ring m: the pixel area times the band weight of its northern mirror. */
  function RingWeight(nside: int, weight: seq<real>, m: int): real
    requires nside >= 1 && |weight| >= 2 * nside && 0 <= m < NRings(nside)
  {
    PixelArea(nside) * weight[NorthRing(nside, m) - 1]
  }

  /** Samples on ring m. */
  function Nph(nside: int, m: int): int
    requires nside >= 1 && 0 <= m < NRings(nside)
  {
    RingNph(nside, NorthRing(nside, m))
  }

  /** Buffer offset of ring m: southern rings are placed by mirroring within the pixel numbering. */
  function RingOfs(nside: int, stride: int, m: int): int
    requires nside >= 1 && 0 <= m < NRings(nside)
  {
    var ofs := NorthOfs(nside, NorthRing(nside, m)) * stride;
    if IsSouth(nside, m) then (Npix(nside) - Nph(nside, m)) * stride - ofs else ofs
  }

  /** Ring m of the weighted HEALPix geometry, as sharp_make_weighted_healpix_geom_info fills it. */
  function HealpixRing(lib: Libm, nside: int, stride: int, weight: seq<real>, m: int): Ring
    requires nside >= 1 && |weight| >= 2 * nside && 0 <= m < NRings(nside)
  {
    Ring(RingTheta(lib, nside, m), RingWeight(nside, weight, m), Nph(nside, m),
         Phase(nside, NorthRing(nside, m)), RingOfs(nside, stride, m), stride)
  }

  function HealpixRings(lib: Libm, nside: int, stride: int, weight: seq<real>): (rings: seq<Ring>)
    requires nside >= 1 && |weight| >= 2 * nside
    ensures |rings| == NRings(nside)
  {
    seq(NRings(nside), m requires 0 <= m < NRings(nside) => HealpixRing(lib, nside, stride, weight, m))
  }

  /** The band-weight table of the unweighted entry point: 2*nside ones. */
  function UnitWeights(nside: int): (w: seq<real>)
    requires nside >= 1
    ensures |w| == 2 * nside
  {
    seq(2 * nside, _ => 1.0)
  }

  /**
   * The ring table of a weighted HEALPix grid, as a ghost value. Its rings are
   * related to HealpixRing only where a HealpixRing term is in view, so that a
   * loop over the table does not unfold every ring it does not touch.
   */
  lemma HealpixTable(lib: Libm, nside: int, stride: int, w: seq<real>) returns (table: seq<Ring>)
    requires nside >= 1 && |w| >= 2 * nside
    ensures |table| == NRings(nside)
    ensures forall k {:trigger HealpixRing(lib, nside, stride, w, k)} :: 0 <= k < |table| ==>
      table[k] == HealpixRing(lib, nside, stride, w, k)
  {
    table := HealpixRings(lib, nside, stride, w);
  }

  /**
   * One pass of the builder's loop: the values of the northern mirror ring,
   * reflected through the equator when ring m lies in the southern hemisphere.
   */
  method ComputeRing(lib: Libm, nside: int, npix: int, stride: int, weight: array<real>, m: int,
                     ghost w: seq<real>, ghost table: seq<Ring>)
    returns (theta: real, wt: real, nph: int, phi0: real, ofs: int)
    requires nside >= 1 && weight.Length >= 2 * nside && 0 <= m < NRings(nside) && npix == Npix(nside)
    requires weight[..] == w && |table| == NRings(nside)
    requires forall k {:trigger HealpixRing(lib, nside, stride, w, k)} :: 0 <= k < |table| ==>
      table[k] == HealpixRing(lib, nside, stride, w, k)
    ensures Ring(theta, wt, nph, phi0, ofs, stride) == table[m]
  {
    var ring := m + 1;
    var northring := NorthRing(nside, m);
    theta := NorthTheta(lib, nside, northring);
    nph := RingNph(nside, northring);
    phi0 := Phase(nside, northring);
    ofs := NorthOfs(nside, northring) * stride;
    if northring != ring {  // southern hemisphere
      theta := Pi - theta;
      ofs := (npix - nph) * stride - ofs;
    }
    wt := PixelArea(nside) * weight[northring - 1];
    assert weight[northring - 1] == w[northring - 1];
    assert table[m] == HealpixRing(lib, nside, stride, w, m);
  }

  /** Builds the weighted HEALPix ring table by filling six parallel arrays ring by ring. */
  method MakeWeightedHealpixGeom(lib: Libm, nside: int, stride: int, weight: array<real>)
    returns (rings: seq<Ring>)
    requires nside >= 1 && weight.Length >= 2 * nside
    ensures rings == HealpixRings(lib, nside, stride, weight[..])
  {
    ghost var w := weight[..];
    ghost var table := HealpixTable(lib, nside, stride, w);
    var theta, weight_, nph, phi0, ofs, stride_ := FillRings(lib, nside, stride, weight, w, table);
    rings := Package(theta, weight_, nph, phi0, ofs, stride_);
  }

  /** The loop of the builder: ring m of the six arrays is ring m of the table. */
  method FillRings(lib: Libm, nside: int, stride: int, weight: array<real>, ghost w: seq<real>, ghost table: seq<Ring>)
    returns (theta: array<real>, weight_: array<real>, nph: array<int>, phi0: array<real>, ofs: array<int>, stride_: array<int>)
    requires nside >= 1 && weight.Length >= 2 * nside
    requires weight[..] == w && |table| == NRings(nside)
    requires forall k {:trigger HealpixRing(lib, nside, stride, w, k)} :: 0 <= k < |table| ==>
      table[k] == HealpixRing(lib, nside, stride, w, k)
    ensures theta.Length == weight_.Length == nph.Length == phi0.Length == ofs.Length == stride_.Length == |table|
    ensures forall k :: 0 <= k < |table| ==>
      Ring(theta[k], weight_[k], nph[k], phi0[k], ofs[k], stride_[k]) == table[k]
  {
    var npix := Npix(nside);
    var nrings := 4 * nside - 1;

    theta := new real[nrings];
    weight_ := new real[nrings];
    nph := new int[nrings];
    phi0 := new real[nrings];
    ofs := new int[nrings];
    stride_ := new int[nrings];
    for m := 0 to nrings
      invariant forall k :: 0 <= k < m ==>
        Ring(theta[k], weight_[k], nph[k], phi0[k], ofs[k], stride_[k]) == table[k]
    {
      var t, wt, n, p, o := ComputeRing(lib, nside, npix, stride, weight, m, w, table);
      theta[m], weight_[m], nph[m], phi0[m], ofs[m], stride_[m] := t, wt, n, p, o, stride;
    }
  }

  /** The unweighted entry point: the weighted builder with a table of 2*nside ones. */
  method MakeHealpixGeom(lib: Libm, nside: int, stride: int) returns (rings: seq<Ring>)
    requires nside >= 1
    ensures rings == HealpixRings(lib, nside, stride, UnitWeights(nside))
  {
    var weight := new real[2 * nside](_ => 1.0);
    assert weight[..] == UnitWeights(nside);
    rings := MakeWeightedHealpixGeom(lib, nside, stride, weight);
  }

  // ---------------------------------------------------------------------------
  // Layout of the pixel buffer

  /** Offset of ring m in pixels (the builder's offset divided by the stride). */
  function OfsPix(nside: int, m: int): int
    requires nside >= 1 && 0 <= m < NRings(nside)
  {
    var nr := NorthRing(nside, m);
    if IsSouth(nside, m) then Npix(nside) - RingNph(nside, nr) - NorthOfs(nside, nr)
    else NorthOfs(nside, nr)
  }

  /** Pixel p lies on ring m. */
  predicate InRing(nside: int, m: int, p: int)
    requires nside >= 1 && 0 <= m < NRings(nside)
  {
    OfsPix(nside, m) <= p < OfsPix(nside, m) + Nph(nside, m)
  }

  /** Consecutive northern rings are adjacent in the buffer. */
  lemma NorthOfsStep(nside: int, nr: int)
    requires nside >= 1 && 1 <= nr < 2 * nside
    ensures NorthOfs(nside, nr + 1) == NorthOfs(nside, nr) + RingNph(nside, nr)
  {
    if nr + 1 < nside {
      calc {
        2 * (nr + 1) * (nr + 1 - 1);
        2 * nr * (nr - 1) + 4 * nr;
      }
    } else if nr + 1 == nside {
      calc {
        Ncap(nside);
        2 * nside * (nside - 1);
        2 * (nr + 1) * nr;
        2 * nr * (nr - 1) + 4 * nr;
      }
    } else {
      calc {
        (nr + 1 - nside) * (4 * nside);
        (nr - nside) * (4 * nside) + 4 * nside;
      }
    }
  }

  /** The rings tile the pixel buffer: ring m + 1 starts where ring m ends. */
  lemma {:induction false} PixelTiling(nside: int, m: int)
    requires nside >= 1 && 0 <= m < NRings(nside) - 1
    ensures OfsPix(nside, m + 1) == OfsPix(nside, m) + Nph(nside, m)
  {
    var nr := NorthRing(nside, m);
    if m + 2 <= 2 * nside {
      NorthOfsStep(nside, nr);
    } else if m + 1 == 2 * nside {
      // the equator ring is followed by the first southern ring, whose mirror is the ring above the equator
      assert NorthRing(nside, m + 1) == 2 * nside - 1;
      calc {
        OfsPix(nside, m + 1);
        Npix(nside) - 4 * nside - (Ncap(nside) + (nside - 1) * (4 * nside));
        12 * nside * nside - 4 * nside - 2 * nside * nside + 2 * nside - 4 * nside * nside + 4 * nside;
        6 * nside * nside + 2 * nside;
        Ncap(nside) + nside * (4 * nside) + 4 * nside;
        OfsPix(nside, m) + Nph(nside, m);
      }
    } else {
      assert NorthRing(nside, m + 1) == nr - 1;
      NorthOfsStep(nside, nr - 1);
    }
  }

  /** The first ring starts at pixel 0 and the last one ends at pixel npix. */
  lemma PixelBounds(nside: int)
    requires nside >= 1
    ensures OfsPix(nside, 0) == 0
    ensures OfsPix(nside, NRings(nside) - 1) + Nph(nside, NRings(nside) - 1) == Npix(nside)
  {
    assert NorthRing(nside, NRings(nside) - 1) == 1;
  }

  /** Every ring lies wholly before every later ring: no two rings overlap. */
  lemma {:induction false} RingsDisjoint(nside: int, m: int, m': int)
    requires nside >= 1 && 0 <= m < m' < NRings(nside)
    ensures OfsPix(nside, m) + Nph(nside, m) <= OfsPix(nside, m')
    decreases m' - m
  {
    PixelTiling(nside, m);
    if m + 1 < m' {
      RingsDisjoint(nside, m + 1, m');
    }
  }

  /** Ring m and everything after it lie in [OfsPix(m), npix). */
  lemma {:induction false} RingsBelowNpix(nside: int, m: int)
    requires nside >= 1 && 0 <= m < NRings(nside)
    ensures 0 <= OfsPix(nside, m) && OfsPix(nside, m) + Nph(nside, m) <= Npix(nside)
    decreases NRings(nside) - m
  {
    PixelBounds(nside);
    if m < NRings(nside) - 1 {
      RingsBelowNpix(nside, m + 1);
      PixelTiling(nside, m);
    }
    if m > 0 {
      RingsDisjoint(nside, 0, m);
    }
  }

  lemma {:induction false} LocateFrom(nside: int, p: int, k: int) returns (m: int)
    requires nside >= 1 && 0 <= k < NRings(nside) && OfsPix(nside, k) <= p < Npix(nside)
    ensures k <= m < NRings(nside) && InRing(nside, m, p)
    decreases NRings(nside) - k
  {
    if p < OfsPix(nside, k) + Nph(nside, k) {
      m := k;
    } else {
      PixelBounds(nside);
      assert k < NRings(nside) - 1;
      PixelTiling(nside, k);
      m := LocateFrom(nside, p, k + 1);
    }
  }

  /** Every pixel of the buffer lies on exactly one ring. */
  lemma PixelOwnedByOneRing(nside: int, p: int)
    requires nside >= 1 && 0 <= p < Npix(nside)
    ensures exists m :: 0 <= m < NRings(nside) && InRing(nside, m, p)
    ensures forall m1, m2 ::
      (0 <= m1 < NRings(nside) && 0 <= m2 < NRings(nside) && InRing(nside, m1, p) && InRing(nside, m2, p))
      ==> m1 == m2
  {
    PixelBounds(nside);
    var m := LocateFrom(nside, p, 0);
    forall m1, m2 | 0 <= m1 < NRings(nside) && 0 <= m2 < NRings(nside) && InRing(nside, m1, p) && InRing(nside, m2, p)
      ensures m1 == m2
    {
      if m1 < m2 {
        RingsDisjoint(nside, m1, m2);
      } else if m2 < m1 {
        RingsDisjoint(nside, m2, m1);
      }
    }
  }

  /** The builder's offset is the pixel offset times the stride. */
  lemma RingOfsIsScaled(lib: Libm, nside: int, stride: int, weight: seq<real>, m: int)
    requires nside >= 1 && |weight| >= 2 * nside && 0 <= m < NRings(nside)
    ensures HealpixRing(lib, nside, stride, weight, m).ofs == OfsPix(nside, m) * stride
    ensures HealpixRing(lib, nside, stride, weight, m).nph == Nph(nside, m)
  {
    var nr := NorthRing(nside, m);
    if IsSouth(nside, m) {
      calc {
        (Npix(nside) - RingNph(nside, nr)) * stride - NorthOfs(nside, nr) * stride;
        (Npix(nside) - RingNph(nside, nr) - NorthOfs(nside, nr)) * stride;
      }
    }
  }

  /**
   * A ring table laid out like the HEALPix buffer: ring k holds Nph(k) samples
   * starting at pixel OfsPix(k), scaled by the stride.
   */
  predicate LaidOut(nside: int, stride: int, rings: seq<Ring>)
    requires nside >= 1
  {
    && |rings| == NRings(nside)
    && forall k :: 0 <= k < |rings| ==> rings[k].nph == Nph(nside, k) && rings[k].ofs == OfsPix(nside, k) * stride
  }

  /** The builder's table is laid out like the buffer. */
  lemma HealpixLaidOut(lib: Libm, nside: int, stride: int, weight: seq<real>)
    requires nside >= 1 && |weight| >= 2 * nside
    ensures LaidOut(nside, stride, HealpixRings(lib, nside, stride, weight))
  {
    var rings := HealpixRings(lib, nside, stride, weight);
    forall k | 0 <= k < |rings|
      ensures rings[k].nph == Nph(nside, k) && rings[k].ofs == OfsPix(nside, k) * stride
    {
      RingOfsIsScaled(lib, nside, stride, weight, k);
    }
  }

  /** One step of the tiling, scaled by the stride. */
  lemma LaidOutStep(nside: int, stride: int, rings: seq<Ring>, m: int)
    requires nside >= 1 && LaidOut(nside, stride, rings) && 0 <= m < |rings| - 1
    ensures rings[m + 1].ofs == rings[m].ofs + rings[m].nph * stride
  {
    PixelTiling(nside, m);
    ScaledSum(OfsPix(nside, m), Nph(nside, m), OfsPix(nside, m + 1), stride);
  }

  lemma ScaledSum(a: int, n: int, b: int, stride: int)
    requires b == a + n
    ensures b * stride == a * stride + n * stride
  {
  }

  lemma LaidOutTiles(nside: int, stride: int, rings: seq<Ring>)
    requires nside >= 1 && LaidOut(nside, stride, rings)
    ensures rings[0].ofs == 0
    ensures forall m :: 0 <= m < |rings| - 1 ==> rings[m + 1].ofs == rings[m].ofs + rings[m].nph * stride
    ensures rings[|rings| - 1].ofs + rings[|rings| - 1].nph * stride == Npix(nside) * stride
  {
    var last := NRings(nside) - 1;
    PixelBounds(nside);
    var a, n := OfsPix(nside, last), Nph(nside, last);
    assert a * stride + n * stride == (a + n) * stride;
    forall m | 0 <= m < |rings| - 1
      ensures rings[m + 1].ofs == rings[m].ofs + rings[m].nph * stride
    {
      LaidOutStep(nside, stride, rings, m);
    }
  }

  /**
   * Offsets tile the buffer of npix*stride: the first ring starts at 0, each ring
   * starts nph*stride after the previous one, and the last ends at npix*stride.
   */
  lemma OffsetsTile(lib: Libm, nside: int, stride: int, weight: seq<real>)
    requires nside >= 1 && |weight| >= 2 * nside
    ensures var rings := HealpixRings(lib, nside, stride, weight);
      && rings[0].ofs == 0
      && (forall m :: 0 <= m < |rings| - 1 ==> rings[m + 1].ofs == rings[m].ofs + rings[m].nph * stride)
      && rings[|rings| - 1].ofs + rings[|rings| - 1].nph * stride == Npix(nside) * stride
  {
    HealpixLaidOut(lib, nside, stride, weight);
    LaidOutTiles(nside, stride, HealpixRings(lib, nside, stride, weight));
  }

  lemma {:induction false} SamplesUpTo(nside: int, stride: int, rings: seq<Ring>, k: int)
    requires nside >= 1 && LaidOut(nside, stride, rings) && 0 <= k < |rings|
    ensures TotalSamples(rings[..k]) == OfsPix(nside, k)
  {
    if k == 0 {
      PixelBounds(nside);
    } else {
      SamplesUpTo(nside, stride, rings, k - 1);
      assert rings[..k][..k - 1] == rings[..k - 1];
      PixelTiling(nside, k - 1);
    }
  }

  lemma LaidOutSamples(nside: int, stride: int, rings: seq<Ring>)
    requires nside >= 1 && LaidOut(nside, stride, rings)
    ensures TotalSamples(rings) == Npix(nside)
  {
    var last := NRings(nside) - 1;
    SamplesUpTo(nside, stride, rings, last);
    assert rings[..|rings|][..last] == rings[..last];
    assert rings[..|rings|] == rings;
    PixelBounds(nside);
  }

  /** The sample counts of all rings add up to npix = 12*nside^2. */
  lemma SamplesSumToNpix(lib: Libm, nside: int, stride: int, weight: seq<real>)
    requires nside >= 1 && |weight| >= 2 * nside
    ensures TotalSamples(HealpixRings(lib, nside, stride, weight)) == Npix(nside)
  {
    HealpixLaidOut(lib, nside, stride, weight);
    LaidOutSamples(nside, stride, HealpixRings(lib, nside, stride, weight));
  }

  /** With one weight c on every ring, the quadrature of 1 is c times the sample count. */
  lemma {:induction false} UniformAreaUpTo(rings: seq<Ring>, c: real, k: int)
    requires 0 <= k <= |rings| && forall m :: 0 <= m < |rings| ==> rings[m].weight == c
    ensures WeightedArea(rings[..k]) == c * TotalSamples(rings[..k]) as real
  {
    if k > 0 {
      UniformAreaUpTo(rings, c, k - 1);
      assert rings[..k][..k - 1] == rings[..k - 1];
      calc {
        WeightedArea(rings[..k]);
        c * TotalSamples(rings[..k - 1]) as real + rings[k - 1].nph as real * c;
        c * (TotalSamples(rings[..k - 1]) + rings[k - 1].nph) as real;
      }
    }
  }

  /** With unit band weights every ring carries the pixel area as its weight. */
  lemma UnitWeightsAreUniform(lib: Libm, nside: int, stride: int)
    requires nside >= 1
    ensures forall m :: 0 <= m < NRings(nside) ==>
      HealpixRings(lib, nside, stride, UnitWeights(nside))[m].weight == PixelArea(nside)
  {
    forall m | 0 <= m < NRings(nside)
      ensures HealpixRings(lib, nside, stride, UnitWeights(nside))[m].weight == PixelArea(nside)
    {
      RingWeights(lib, nside, stride, UnitWeights(nside), m);
    }
  }

  /** Rings of one weight c whose sample counts add up to n cover an area of c*n. */
  lemma UniformArea(rings: seq<Ring>, c: real, n: int)
    requires forall m :: 0 <= m < |rings| ==> rings[m].weight == c
    requires TotalSamples(rings) == n
    ensures WeightedArea(rings) == c * n as real
  {
    UniformAreaUpTo(rings, c, |rings|);
    assert rings[..|rings|] == rings;
  }

  /** A laid-out table whose every ring weighs one pixel area covers the sphere. */
  lemma LaidOutArea(nside: int, stride: int, rings: seq<Ring>)
    requires nside >= 1 && LaidOut(nside, stride, rings)
    requires forall m :: 0 <= m < |rings| ==> rings[m].weight == PixelArea(nside)
    ensures WeightedArea(rings) == 4.0 * Pi
  {
    LaidOutSamples(nside, stride, rings);
    UniformArea(rings, PixelArea(nside), Npix(nside));
    PixelsCoverSphere(nside);
  }

  /** With unit band weights the quadrature of 1 over the sphere is exactly 4*pi. */
  lemma UnweightedAreaIs4Pi(lib: Libm, nside: int, stride: int)
    requires nside >= 1
    ensures WeightedArea(HealpixRings(lib, nside, stride, UnitWeights(nside))) == 4.0 * Pi
  {
    UnitWeightsAreUniform(lib, nside, stride);
    HealpixLaidOut(lib, nside, stride, UnitWeights(nside));
    LaidOutArea(nside, stride, HealpixRings(lib, nside, stride, UnitWeights(nside)));
  }

  /** npix pixels of the pixel area make up the whole sphere. */
  lemma PixelsCoverSphere(nside: int)
    requires nside >= 1
    ensures PixelArea(nside) * Npix(nside) as real == 4.0 * Pi
  {
    var n := Npix(nside) as real;
    assert 4.0 * Pi / n * n == 4.0 * Pi;
  }

  // ---------------------------------------------------------------------------
  // Per-ring rules

  /**
   * Ring m and ring nrings-1-m mirror the same northern ring; the southern one
   * differs from the northern one only by the reflected colatitude and offset.
   */
  lemma HemisphereSymmetry(lib: Libm, nside: int, stride: int, weight: seq<real>, m: int)
    requires nside >= 1 && |weight| >= 2 * nside && 0 <= m < NRings(nside)
    ensures NorthRing(nside, m) == NorthRing(nside, NRings(nside) - 1 - m)
    ensures m < 2 * nside - 1 ==>
      var north := HealpixRing(lib, nside, stride, weight, m);
      var south := HealpixRing(lib, nside, stride, weight, NRings(nside) - 1 - m);
      && !IsSouth(nside, m) && IsSouth(nside, NRings(nside) - 1 - m)
      && south.theta == Pi - north.theta
      && south.ofs == (Npix(nside) - north.nph) * stride - north.ofs
      && south.nph == north.nph && south.phi0 == north.phi0
      && south.weight == north.weight && south.stride == north.stride
  {
  }

  /** Sample counts: 4*northring in the polar caps, 4*nside in the belt. */
  lemma SampleCounts(nside: int, m: int)
    requires nside >= 1 && 0 <= m < NRings(nside)
    ensures NorthRing(nside, m) < nside ==> Nph(nside, m) == 4 * NorthRing(nside, m)
    ensures NorthRing(nside, m) >= nside ==> Nph(nside, m) == 4 * nside
  {
  }

  /** Sample counts never decrease from the north pole down to the equator. */
  lemma NorthernSampleCountsGrow(nside: int, m: int, m': int)
    requires nside >= 1 && 0 <= m <= m' < 2 * nside
    ensures Nph(nside, m) <= Nph(nside, m')
  {
  }

  /**
   * Phase rule: a ring has phase 0 exactly when it is a belt ring at odd distance
   * from the first belt ring; every other ring is shifted by half a pixel.
   */
  lemma PhaseRule(lib: Libm, nside: int, stride: int, weight: seq<real>, m: int)
    requires nside >= 1 && |weight| >= 2 * nside && 0 <= m < NRings(nside)
    ensures var r := HealpixRing(lib, nside, stride, weight, m);
      var nr := NorthRing(nside, m);
      && (r.phi0 == 0.0 <==> nr >= nside && (nr - nside) % 2 == 1)
      && (r.phi0 != 0.0 ==> r.phi0 == Pi / r.nph as real)
  {
    var nph := RingNph(nside, NorthRing(nside, m));
    assert Pi / nph as real > 0.0;
  }

  /** Neighbouring belt rings alternate between the shifted and the unshifted phase. */
  lemma BeltPhaseAlternates(nside: int, nr: int)
    requires nside >= 1 && nside <= nr < 2 * nside
    ensures (Phase(nside, nr) == 0.0) != (Phase(nside, nr + 1) == 0.0)
  {
    assert Pi / (4 * nside) as real != 0.0;
    assert (nr + 1 - nside) % 2 == 1 <==> (nr - nside) % 2 == 0;
  }

  /** Each ring's weight is 4*pi/npix times the band weight of its northern mirror. */
  lemma RingWeights(lib: Libm, nside: int, stride: int, weight: seq<real>, m: int)
    requires nside >= 1 && |weight| >= 2 * nside && 0 <= m < NRings(nside)
    ensures HealpixRing(lib, nside, stride, weight, m).weight
      == 4.0 * Pi / Npix(nside) as real * weight[NorthRing(nside, m) - 1]
    ensures HealpixRing(lib, nside, stride, UnitWeights(nside), m).weight == 4.0 * Pi / Npix(nside) as real
  {
  }

  /** The smallest grid: three rings of four pixels at offsets 0, 4 and 8 times the stride. */
  lemma SmallestGrid(lib: Libm, stride: int, weight: seq<real>)
    requires |weight| >= 2
    ensures var rings := HealpixRings(lib, 1, stride, weight);
      && |rings| == 3 && Npix(1) == 12
      && rings[0].nph == 4 && rings[1].nph == 4 && rings[2].nph == 4
      && rings[0].ofs == 0 && rings[1].ofs == 4 * stride && rings[2].ofs == 8 * stride
  {
    var rings := HealpixRings(lib, 1, stride, weight);
    assert NorthRing(1, 2) == 1;
  }
}
