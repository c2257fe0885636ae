/** Image geometry, from initial_setup and per_scan_setup on either side and the
    DCT scaling of jdmaster.c: the row and column counts the controllers
    work with fit together for every image size and sampling factors. */
module Geometry {
  import opened JpegLimits
  import opened Rounding
  import opened CoefController
  import opened MainController

  // ----- dimensions of components

  /** An image and one component's sampling factors. */
  datatype Dims = Dims(imageWidth: nat, imageHeight: nat, maxH: nat, maxV: nat)

  ghost predicate ValidDims(d: Dims) {
    d.imageWidth >= 1 && d.imageHeight >= 1 && d.maxH >= 1 && d.maxV >= 1
  }

  function WidthInBlocks(d: Dims, h: nat): nat
    requires ValidDims(d)
  {
    CeilDiv(d.imageWidth * h, d.maxH * DCTSIZE)
  }

  function HeightInBlocks(d: Dims, v: nat): nat
    requires ValidDims(d)
  {
    CeilDiv(d.imageHeight * v, d.maxV * DCTSIZE)
  }

  function TotalImcuRows(d: Dims): nat
    requires ValidDims(d)
  {
    CeilDiv(d.imageHeight, d.maxV * DCTSIZE)
  }

  function McusAcross(d: Dims): nat
    requires ValidDims(d)
  {
    CeilDiv(d.imageWidth, d.maxH * DCTSIZE)
  }

  /** An interleaved scan has as many MCUs per row, and iMCU rows, as any of its
      components has groups of h blocks and of v block rows. */
  lemma {:induction false} BlocksFit(d: Dims, h: nat, v: nat)
    requires ValidDims(d) && h >= 1 && v >= 1
    ensures CeilDiv(WidthInBlocks(d, h), h) == McusAcross(d) && CeilDiv(HeightInBlocks(d, v), v) == TotalImcuRows(d)
    ensures WidthInBlocks(d, h) >= 1 && HeightInBlocks(d, v) >= 1
  {
    CeilTwice(d.imageWidth * h, d.maxH * DCTSIZE, h);
    CeilScale(d.imageWidth, d.maxH * DCTSIZE, h);
    CeilTwice(d.imageHeight * v, d.maxV * DCTSIZE, v);
    CeilScale(d.imageHeight, d.maxV * DCTSIZE, v);
    ProductPositive(d.imageWidth, h);
    ProductPositive(d.imageHeight, v);
  }

  /** The number of MCU rows that start_iMCU_row hands out, over all iMCU rows. */
  function McuRowSum(s: CoefScan, n: nat): nat
    requires ValidCoefScan(s)
  {
    if n == 0 then 0 else McuRowSum(s, n - 1) + McuRowsIn(s, n - 1)
  }

  /** MCU_rows_in_scan is reached exactly: one MCU row for each iMCU row when the
      scan is interleaved, one for each block row when it is not. */
  lemma {:induction false} McuRowsAddUp(s: CoefScan)
    requires ValidCoefScan(s)
    ensures McuRowSum(s, s.totalImcuRows) == if s.Interleaved() then s.totalImcuRows else s.comps[0].height
  {
    var c := s.comps[0];
    McuRowsPartial(s, s.totalImcuRows - 1);
    CeilParts(c.height, c.v);
  }

  lemma {:induction false} McuRowsPartial(s: CoefScan, n: nat)
    requires ValidCoefScan(s) && n < s.totalImcuRows
    ensures McuRowSum(s, n) == n * if s.Interleaved() then 1 else s.comps[0].v
  {
    if n > 0 {
      McuRowsPartial(s, n - 1);
      var v := s.comps[0].v;
      assert n * v == (n - 1) * v + v;
    }
  }

  /** The components of a scan have the dimensions of the image. */
  ghost predicate ScanOf(d: Dims, s: CoefScan) {
    && ValidDims(d) && |s.comps| >= 1
    && (forall ci :: 0 <= ci < |s.comps| ==>
          ValidComp(s.comps[ci]) && s.comps[ci].width == WidthInBlocks(d, s.comps[ci].h) && s.comps[ci].height == HeightInBlocks(d, s.comps[ci].v))
    && s.totalImcuRows == TotalImcuRows(d)
    && s.mcusPerRow == (if |s.comps| == 1 then s.comps[0].width else McusAcross(d))
  }

  /** What the coefficient controller relies on holds of every scan set up from
      an image, as long as an MCU does not have too many blocks. */
  lemma {:induction false} ScanSetupIsValid(d: Dims, s: CoefScan)
    requires ScanOf(d, s) && BlocksBefore(s, |s.comps|) <= C_MAX_BLOCKS_IN_MCU
    ensures ValidCoefScan(s)
  {
    forall ci | 0 <= ci < |s.comps|
      ensures var c := s.comps[ci];
              s.mcusPerRow == (c.width + s.McuWidth(ci) - 1) / s.McuWidth(ci) && s.totalImcuRows == (c.height + c.v - 1) / c.v
    {
      BlocksFit(d, s.comps[ci].h, s.comps[ci].v);
    }
    BlocksFit(d, s.comps[0].h, s.comps[0].v);
  }

  // ----- DCT scaling in the decompressor

  function Power2Of(m: nat, k: nat): nat {
    if k == 0 then m else 2 * Power2Of(m, k - 1)
  }

  /** The loop of jpeg_calc_output_dimensions for one component. */
  method ChooseDctSize(h: nat, v: nat, maxH: nat, maxV: nat, minSize: nat) returns (ssize: nat, ghost k: nat)
    requires 1 <= minSize <= DCTSIZE && 1 <= h <= maxH && 1 <= v <= maxV
    ensures ssize == Power2Of(minSize, k) && minSize <= ssize
    ensures h * ssize <= maxH * minSize && v * ssize <= maxV * minSize
    ensures ssize >= DCTSIZE || h * ssize * 2 > maxH * minSize || v * ssize * 2 > maxV * minSize
  {
    ssize, k := minSize, 0;
    MulLe(h, maxH, minSize);
    MulLe(v, maxV, minSize);
    while ssize < DCTSIZE && h * ssize * 2 <= maxH * minSize && v * ssize * 2 <= maxV * minSize
      invariant ssize == Power2Of(minSize, k) && minSize <= ssize
      invariant h * ssize <= maxH * minSize && v * ssize <= maxV * minSize
      decreases DCTSIZE - ssize
    {
      Doubled(h, ssize);
      Doubled(v, ssize);
      ssize := ssize * 2;
      k := k + 1;
    }
  }

  lemma {:induction false} Doubled(a: nat, b: nat)
    ensures a * (b * 2) == a * b * 2
  {
  }

  /** What the main controller sees of a component with vertical sampling v and
      scaled DCT size factor * M, where M is min_DCT_scaled_size. */
  function StripOf(d: Dims, v: nat, factor: nat, M: nat): Strip
    requires ValidDims(d)
  {
    Strip(v * factor, M, CeilDiv(d.imageHeight * (v * (factor * M)), d.maxV * DCTSIZE))
  }

  /** Whatever scaling is chosen for a component, its last iMCU row has the same
      number of row groups, and it has the image's number of iMCU rows. */
  lemma {:induction false} RowGroupsAgree(d: Dims, v: nat, factor: nat, M: nat)
    requires ValidDims(d) && v >= 1 && factor >= 1 && M >= 2
    ensures var s := StripOf(d, v, factor, M);
            && s.Valid() && s.TotalImcuRows() == TotalImcuRows(d)
            && s.Groups() == CeilDiv(d.imageHeight * M, d.maxV * DCTSIZE)
            && s.LastGroups() == CeilDiv(d.imageHeight * M, d.maxV * DCTSIZE) - (TotalImcuRows(d) - 1) * M
  {
    var s := StripOf(d, v, factor, M);
    var r := v * factor;
    ProductPositive(v, factor);
    ProductPositive(r, M);
    assert v * (factor * M) == r * M;
    ProductPositive(d.imageHeight, r * M);
    // total iMCU rows
    CeilTwice(d.imageHeight * (r * M), d.maxV * DCTSIZE, r * M);
    CeilScale(d.imageHeight, d.maxV * DCTSIZE, r * M);
    // row groups
    CeilTwice(d.imageHeight * (r * M), d.maxV * DCTSIZE, r);
    assert d.imageHeight * (r * M) == (d.imageHeight * M) * r by { Regroup(d.imageHeight, r, M); }
    CeilScale(d.imageHeight * M, d.maxV * DCTSIZE, r);
    GroupsCover(s);
    CeilUnique(s.height, r, s.Groups());
  }
}
