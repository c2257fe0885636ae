/** jccoefct.c: the MCUs handed to the entropy encoder, in single-pass mode and
    through the full-image coefficient buffer, with dummy blocks at the edges
    and with suspension. */
module CoefController {
  import opened JpegLimits
  import opened Bits
  import opened Rounding
  import opened BlockCoding
  import opened ScanCoding

  const C_MAX_BLOCKS_IN_MCU := 10

  /** A component of the scan: sampling factors, size in blocks, and its real
      coefficient blocks as the forward DCT delivers them. */
  datatype Comp = Comp(h: nat, v: nat, width: nat, height: nat, blocks: seq<seq<Block>>)

  ghost predicate ValidComp(c: Comp) {
    && c.h >= 1 && c.v >= 1 && c.width >= 1 && c.height >= 1 && |c.blocks| == c.height
    && (forall r :: 0 <= r < c.height ==> |c.blocks[r]| == c.width)
  }

  /** All zeroes but for the DC entry. */
  function Dummy(dc: Coef): Block {
    seq(DCTSIZE2, i => if i == 0 then dc else 0)
  }

  /** The component extended over its edges. To the right a dummy block repeats
      the DC value of the last real block in its row; below, that of the last
      real block of its MCU column in the bottom row. */
  function Padded(c: Comp, r: nat, k: nat): Block
    requires ValidComp(c)
  {
    if r < c.height && k < c.width then c.blocks[r][k]
    else if r < c.height then Dummy(c.blocks[r][c.width - 1][0])
    else
      var last := k / c.h * c.h + c.h - 1;
      Dummy(c.blocks[c.height - 1][if last < c.width then last else c.width - 1][0])
  }

  /** n blocks of row r from column k on. */
  function RowBlocks(c: Comp, r: nat, k: nat, n: nat): (bs: seq<Block>)
    requires ValidComp(c)
    ensures |bs| == n
  {
    if n == 0 then [] else RowBlocks(c, r, k, n - 1) + [Padded(c, r, k + n - 1)]
  }

  lemma {:induction false} RowAt(c: Comp, r: nat, k: nat, n: nat)
    requires ValidComp(c)
    ensures forall i :: 0 <= i < n ==> RowBlocks(c, r, k, n)[i] == Padded(c, r, k + i)
  {
    if n > 0 {
      RowAt(c, r, k, n - 1);
    }
  }

  /** n rows of w blocks each. */
  function AreaBlocks(c: Comp, r: nat, k: nat, w: nat, n: nat): seq<Block>
    requires ValidComp(c)
  {
    if n == 0 then [] else AreaBlocks(c, r, k, w, n - 1) + RowBlocks(c, r + n - 1, k, w)
  }

  /** What the controller knows of the scan: cur_comp_info, MCUs_per_row and total_iMCU_rows. */
  datatype CoefScan = CoefScan(comps: seq<Comp>, mcusPerRow: nat, totalImcuRows: nat) {
    predicate Interleaved() {
      |comps| > 1
    }

    function McuWidth(ci: nat): nat
      requires ci < |comps|
    {
      if Interleaved() then comps[ci].h else 1
    }

    function McuHeight(ci: nat): nat
      requires ci < |comps|
    {
      if Interleaved() then comps[ci].v else 1
    }
  }

  /** The dimensions per_scan_setup and initial_setup give a scan. */
  ghost predicate ValidCoefScan(s: CoefScan) {
    && |s.comps| >= 1 && s.mcusPerRow >= 1 && s.totalImcuRows >= 1
    && (forall ci :: 0 <= ci < |s.comps| ==> ValidComp(s.comps[ci]))
    && (forall ci :: 0 <= ci < |s.comps| ==>
          var c := s.comps[ci];
          && s.mcusPerRow == (c.width + s.McuWidth(ci) - 1) / s.McuWidth(ci)
          && s.totalImcuRows == (c.height + c.v - 1) / c.v)
    && BlocksBefore(s, |s.comps|) <= C_MAX_BLOCKS_IN_MCU
  }

  /** Blocks that the first n components take up in an MCU. */
  function BlocksBefore(s: CoefScan, n: nat): nat
    requires n <= |s.comps|
  {
    if n == 0 then 0 else BlocksBefore(s, n - 1) + Area(s.McuHeight(n - 1), s.McuWidth(n - 1))
  }

  /** MCU rows in iMCU row im. */
  function McuRowsIn(s: CoefScan, im: nat): nat
    requires ValidCoefScan(s)
  {
    if s.Interleaved() then 1
    else if im < s.totalImcuRows - 1 then s.comps[0].v else LastPart(s.comps[0].height, s.comps[0].v)
  }

  /** The block row and column at which an MCU begins in component ci. */
  function RowOf(s: CoefScan, ci: nat, im: nat, yoffset: nat): nat
    requires ci < |s.comps|
  {
    im * s.comps[ci].v + yoffset
  }

  function ColOf(s: CoefScan, ci: nat, col: nat): nat
    requires ci < |s.comps|
  {
    col * s.McuWidth(ci)
  }

  /** The blocks of component ci in an MCU. */
  function ComponentBlocks(s: CoefScan, ci: nat, im: nat, yoffset: nat, col: nat): seq<Block>
    requires ValidCoefScan(s) && ci < |s.comps|
  {
    AreaBlocks(s.comps[ci], RowOf(s, ci, im, yoffset), ColOf(s, ci, col), s.McuWidth(ci), s.McuHeight(ci))
  }

  /** The blocks of an MCU: those of the first n components. */
  function McuBlocks(s: CoefScan, im: nat, yoffset: nat, col: nat, n: nat): seq<Block>
    requires ValidCoefScan(s) && n <= |s.comps|
  {
    if n == 0 then [] else McuBlocks(s, im, yoffset, col, n - 1) + ComponentBlocks(s, n - 1, im, yoffset, col)
  }

  function Mcu(s: CoefScan, im: nat, yoffset: nat, col: nat): seq<Block>
    requires ValidCoefScan(s)
  {
    McuBlocks(s, im, yoffset, col, |s.comps|)
  }

  // ----- geometry of the last column and row

  lemma {:induction false} ColumnOf(k: nat, h: nat, col: nat, i: nat)
    requires h >= 1 && k == col * h + i && i < h
    ensures k / h * h + h - 1 == col * h + h - 1
  {
    DivModUnique(k, h, col, i);
  }

  /** An MCU that is not in the last column is all real to the right. */
  lemma {:induction false} ColumnWidth(s: CoefScan, ci: nat, col: nat)
    requires ValidCoefScan(s) && ci < |s.comps| && col < s.mcusPerRow
    ensures var c, w := s.comps[ci], s.McuWidth(ci);
            var n := if col < s.mcusPerRow - 1 then w else LastPart(c.width, w);
            1 <= n <= w && col * w + n <= c.width && (n < w ==> col * w + n == c.width) && col * w >= 0
  {
    var c, w := s.comps[ci], s.McuWidth(ci);
    CeilParts(c.width, w);
    if col < s.mcusPerRow - 1 {
      MulLe(col + 1, s.mcusPerRow - 1, w);
      assert (col + 1) * w == col * w + w;
    }
  }

  /** Which rows of an iMCU row are real. */
  lemma {:induction false} RowHeight(c: Comp, total: nat, im: nat, y: nat)
    requires ValidComp(c) && total == (c.height + c.v - 1) / c.v && im < total && y < c.v
    ensures im * c.v + y < c.height <==> im < total - 1 || y < LastPart(c.height, c.v)
    ensures im * c.v >= 0 && (im == total - 1 ==> c.height == im * c.v + LastPart(c.height, c.v))
  {
    CeilParts(c.height, c.v);
    if im < total - 1 {
      MulLe(im + 1, total - 1, c.v);
      assert (im + 1) * c.v == im * c.v + c.v;
    }
  }

  // ----- single pass: one MCU at a time

  /** Below the image a block repeats the DC of its MCU's last block one row up. */
  lemma {:induction false} BelowIsCopy(c: Comp, r: nat, k: nat, e: nat)
    requires ValidComp(c) && r >= c.height && r >= 1 && k / c.h * c.h + c.h - 1 == e && e / c.h * c.h + c.h - 1 == e
    ensures Padded(c, r, k) == Dummy(Padded(c, r - 1, e)[0])
  {
  }

  /** To the right a block repeats the DC of the block before it. */
  lemma {:induction false} RightIsCopy(c: Comp, r: nat, k: nat)
    requires ValidComp(c) && r < c.height && k >= c.width
    ensures k >= 1 && Padded(c, r, k) == Dummy(Padded(c, r, k - 1)[0])
  {
  }

  /** forward_DCT: n real blocks of row r from column k on. */
  method ForwardDct(buf: array<Block>, blkn: nat, c: Comp, r: nat, k: nat, n: nat)
    requires ValidComp(c) && r < c.height && k + n <= c.width && blkn + n <= buf.Length
    modifies buf
    ensures buf[..blkn + n] == old(buf[..blkn]) + RowBlocks(c, r, k, n)
  {
    ghost var before := buf[..blkn];
    var bi := 0;
    while bi < n
      invariant 0 <= bi <= n && buf[..blkn + bi] == before + RowBlocks(c, r, k, bi)
    {
      buf[blkn + bi] := c.blocks[r][k + bi];
      assert buf[..blkn + (bi + 1)] == buf[..blkn + bi] + [Padded(c, r, k + bi)];
      bi := bi + 1;
    }
  }

  /** Dummy blocks at the right edge of the image. */
  method PadRight(buf: array<Block>, ghost before: seq<Block>, blkn: nat, ghost c: Comp, ghost r: nat, ghost k: nat, n: nat, w: nat)
    requires ValidComp(c) && r < c.height && 1 <= n <= w && (n < w ==> k + n == c.width) && blkn + w <= buf.Length
    requires |before| == blkn && buf[..blkn + n] == before + RowBlocks(c, r, k, n)
    modifies buf
    ensures buf[..blkn + w] == before + RowBlocks(c, r, k, w)
  {
    var bi := n;
    while bi < w
      invariant n <= bi <= w && buf[..blkn + bi] == before + RowBlocks(c, r, k, bi)
    {
      RightIsCopy(c, r, k + bi);
      assert buf[..blkn + bi][blkn + bi - 1] == Padded(c, r, k + bi - 1);
      buf[blkn + bi] := Dummy(buf[blkn + bi - 1][0]);
      assert buf[..blkn + (bi + 1)] == buf[..blkn + bi] + [Padded(c, r, k + bi)];
      bi := bi + 1;
    }
  }

  /** A row of dummy blocks at the bottom of the image. */
  method PadBelow(buf: array<Block>, blkn: nat, ghost c: Comp, ghost r: nat, ghost col: nat, w: nat)
    requires ValidComp(c) && r >= c.height && w == c.h && 1 <= blkn && blkn + w <= buf.Length
    requires buf[blkn - 1] == Padded(c, r - 1, col * w + w - 1)
    modifies buf
    ensures buf[..blkn + w] == old(buf[..blkn]) + RowBlocks(c, r, col * w, w)
  {
    hide Padded, Dummy;
    ghost var k := col * w;
    ghost var before := buf[..blkn];
    ColumnOf(k + w - 1, w, col, w - 1);
    var bi := 0;
    while bi < w
      invariant 0 <= bi <= w && buf[..blkn + bi] == before + RowBlocks(c, r, k, bi)
    {
      ColumnOf(k + bi, w, col, bi);
      BelowIsCopy(c, r, k + bi, k + w - 1);
      assert buf[..blkn + bi][blkn - 1] == before[blkn - 1];
      buf[blkn + bi] := Dummy(buf[blkn - 1][0]);
      assert buf[..blkn + (bi + 1)] == buf[..blkn + bi] + [Padded(c, r, k + bi)];
      bi := bi + 1;
    }
  }

  /** The last block of the row above, for rows after the first of an MCU. */
  ghost predicate AboveAt(s: CoefScan, before: seq<Block>, ci: nat, r: nat, col: nat, yindex: nat)
    requires ValidCoefScan(s) && ci < |s.comps|
  {
    yindex == 0 || yindex >= s.McuHeight(ci) ||
    (1 <= |before| && r >= 1 && s.McuWidth(ci) == s.comps[ci].h &&
     before[|before| - 1] == Padded(s.comps[ci], r - 1, col * s.McuWidth(ci) + s.McuWidth(ci) - 1))
  }

  /** One row of the blocks of component ci of an MCU: real blocks, then dummy
      ones at the right edge, or a whole row of dummies at the bottom. */
  method FillRow(s: CoefScan, buf: array<Block>, blkn: nat, ci: nat, im: nat, yoffset: nat, yindex: nat, col: nat, ghost r: nat)
    requires ValidCoefScan(s) && ci < |s.comps| && im < s.totalImcuRows && col < s.mcusPerRow
    requires yoffset + yindex < s.comps[ci].v && r == im * s.comps[ci].v + (yoffset + yindex)
    requires blkn + s.McuWidth(ci) <= buf.Length && AboveAt(s, buf[..blkn], ci, r, col, yindex)
    requires yindex < s.McuHeight(ci) && (yindex == 0 ==> r < s.comps[ci].height)
    modifies buf
    ensures buf[..blkn + s.McuWidth(ci)]
         == old(buf[..blkn]) + RowBlocks(s.comps[ci], r, col * s.McuWidth(ci), s.McuWidth(ci))
  {
    var c, w := s.comps[ci], s.McuWidth(ci);
    var lastRowHeight := LastPart(c.height, c.v);
    ColumnWidth(s, ci, col);
    RowHeight(c, s.totalImcuRows, im, yoffset + yindex);
    hide LastPart, RowBlocks, ValidCoefScan, Padded;
    ghost var before := buf[..blkn];
    if im < s.totalImcuRows - 1 || yoffset + yindex < lastRowHeight {
      var blockcnt := if col < s.mcusPerRow - 1 then w else LastPart(c.width, w);
      ForwardDct(buf, blkn, c, im * c.v + (yoffset + yindex), col * w, blockcnt);
      PadRight(buf, before, blkn, c, r, col * w, blockcnt, w);
    } else {
      assert before[blkn - 1] == buf[blkn - 1];
      PadBelow(buf, blkn, c, r, col, w);
    }
  }

  /** An MCU row of an iMCU row has its first block row in the image. */
  lemma {:induction false} McuRowReal(s: CoefScan, im: nat, yoffset: nat, ci: nat)
    requires ValidCoefScan(s) && im < s.totalImcuRows && yoffset < McuRowsIn(s, im) && ci < |s.comps|
    ensures im * s.comps[ci].v + yoffset < s.comps[ci].height && yoffset + s.McuHeight(ci) <= s.comps[ci].v
    ensures im * s.comps[ci].v >= 0
  {
    var c := s.comps[ci];
    CeilParts(c.height, c.v);
    RowHeight(c, s.totalImcuRows, im, if s.Interleaved() then 0 else yoffset);
  }

  /** One more row of blocks of a component of an MCU. */
  method FillNext(s: CoefScan, buf: array<Block>, blkn: nat, ci: nat, im: nat, yoffset: nat, yindex: nat, col: nat, ghost before: seq<Block>)
    requires ValidCoefScan(s) && ci < |s.comps| && im < s.totalImcuRows && col < s.mcusPerRow && yoffset < McuRowsIn(s, im)
    requires yindex < s.McuHeight(ci) && blkn + s.McuWidth(ci) <= buf.Length && Filling(s, buf[..blkn], ci, im, yoffset, yindex, col, before)
    modifies buf
    ensures Filling(s, buf[..blkn + s.McuWidth(ci)], ci, im, yoffset, yindex + 1, col, before)
  {
    ghost var r := RowOf(s, ci, im, yoffset);
    McuRowReal(s, im, yoffset, ci);
    WidthPositive(s, ci);
    hide ValidCoefScan, RowBlocks, Padded, ValidComp, AreaBlocks, AboveAt;
    FillRow(s, buf, blkn, ci, im, yoffset, yindex, col, r + yindex);
    NextArea(s, ci, r, col, yindex, before);
  }

  /** yindex rows of component ci follow what was there before. */
  ghost predicate Filling(s: CoefScan, now: seq<Block>, ci: nat, im: nat, yoffset: nat, yindex: nat, col: nat, before: seq<Block>)
    requires ValidCoefScan(s) && ci < |s.comps|
  {
    && now == before + AreaBlocks(s.comps[ci], RowOf(s, ci, im, yoffset), ColOf(s, ci, col), s.McuWidth(ci), yindex)
    && AboveAt(s, now, ci, RowOf(s, ci, im, yoffset) + yindex, col, yindex)
  }

  /** The blocks of one component of an MCU. */
  method FillComponent(s: CoefScan, buf: array<Block>, blkn0: nat, ci: nat, im: nat, yoffset: nat, col: nat) returns (blkn: nat)
    requires ValidCoefScan(s) && ci < |s.comps| && im < s.totalImcuRows && col < s.mcusPerRow && yoffset < McuRowsIn(s, im)
    requires blkn0 + Area(s.McuHeight(ci), s.McuWidth(ci)) <= buf.Length
    modifies buf
    ensures blkn == blkn0 + Area(s.McuHeight(ci), s.McuWidth(ci))
    ensures buf[..blkn] == old(buf[..blkn0]) + ComponentBlocks(s, ci, im, yoffset, col)
  {
    hide ValidCoefScan, AreaBlocks, AboveAt, McuRowsIn, RowOf, ColOf, Area;
    var w, mh := s.McuWidth(ci), s.McuHeight(ci);
    ghost var before := buf[..blkn0];
    blkn := blkn0;
    NoArea(w);
    FirstArea(s, ci, im, yoffset, col, before);
    var yindex := 0;
    while yindex < mh
      invariant 0 <= yindex <= mh && blkn == blkn0 + Area(yindex, w) <= buf.Length
      invariant Filling(s, buf[..blkn], ci, im, yoffset, yindex, col, before)
    {
      RoomLeft(yindex, mh, w);
      FillNext(s, buf, blkn, ci, im, yoffset, yindex, col, before);
      blkn := blkn + w;
      yindex := yindex + 1;
    }
  }

  /** n rows of w blocks. */
  function Area(n: nat, w: nat): nat {
    n * w
  }

  lemma {:induction false} NoArea(w: nat)
    ensures Area(0, w) == 0
  {
  }

  lemma {:induction false} RoomLeft(n: nat, m: nat, w: nat)
    requires n < m
    ensures Area(n + 1, w) == Area(n, w) + w <= Area(m, w)
  {
    MulLe(n + 1, m, w);
  }

  lemma {:induction false} FirstArea(s: CoefScan, ci: nat, im: nat, yoffset: nat, col: nat, before: seq<Block>)
    requires ValidCoefScan(s) && ci < |s.comps|
    ensures Filling(s, before, ci, im, yoffset, 0, col, before)
  {
    assert before + [] == before;
  }

  lemma {:induction false} NextArea(s: CoefScan, ci: nat, r: nat, col: nat, n: nat, before: seq<Block>)
    requires ValidCoefScan(s) && ci < |s.comps|
    ensures var c, w := s.comps[ci], s.McuWidth(ci); var k := col * w;
            var now := before + AreaBlocks(c, r, k, w, n) + RowBlocks(c, r + n, k, w);
            now == before + AreaBlocks(c, r, k, w, n + 1) && AboveAt(s, now, ci, r + n + 1, col, n + 1)
  {
    WidthPositive(s, ci);
    var c, w := s.comps[ci], s.McuWidth(ci);
    AreaGrows(c, r, col * w, w, n, before);
    NextAbove(s, ci, r + n, col, n, before + AreaBlocks(c, r, col * w, w, n));
  }

  lemma {:induction false} AreaStep(c: Comp, r: nat, k: nat, w: nat, n: nat)
    requires ValidComp(c)
    ensures AreaBlocks(c, r, k, w, 0) == [] && AreaBlocks(c, r, k, w, n + 1) == AreaBlocks(c, r, k, w, n) + RowBlocks(c, r + n, k, w)
  {
  }

  lemma {:induction false} AreaGrows(c: Comp, r: nat, k: nat, w: nat, n: nat, before: seq<Block>)
    requires ValidComp(c)
    ensures before + AreaBlocks(c, r, k, w, n) + RowBlocks(c, r + n, k, w) == before + AreaBlocks(c, r, k, w, n + 1)
  {
    hide RowBlocks, Padded, ValidComp;
    var area, row := AreaBlocks(c, r, k, w, n), RowBlocks(c, r + n, k, w);
    assert AreaBlocks(c, r, k, w, n + 1) == area + row;
    hide AreaBlocks;
    assert (before + area) + row == before + (area + row);
  }

  lemma {:induction false} NextAbove(s: CoefScan, ci: nat, r: nat, col: nat, n: nat, above: seq<Block>)
    requires ValidCoefScan(s) && ci < |s.comps|
    ensures ValidComp(s.comps[ci])
    ensures AboveAt(s, above + RowBlocks(s.comps[ci], r, col * s.McuWidth(ci), s.McuWidth(ci)), ci, r + 1, col, n + 1)
  {
    WidthPositive(s, ci);
    var c, w := s.comps[ci], s.McuWidth(ci);
    var row := RowBlocks(c, r, col * w, w);
    assert row[w - 1] == Padded(c, r, col * w + (w - 1));
    hide ValidCoefScan, Padded, RowBlocks;
    LastOf(above, row);
  }

  lemma {:induction false} LastOf(a: seq<Block>, b: seq<Block>)
    requires b != []
    ensures (a + b)[|a + b| - 1] == b[|b| - 1]
  {
  }

  lemma {:induction false} WidthPositive(s: CoefScan, ci: nat)
    requires ValidCoefScan(s) && ci < |s.comps|
    ensures ValidComp(s.comps[ci]) && s.McuWidth(ci) >= 1 && s.McuHeight(ci) >= 1
    ensures s.McuHeight(ci) > 1 ==> s.McuWidth(ci) == s.comps[ci].h
  {
  }

  lemma {:induction false} BlocksMono(s: CoefScan, n: nat, m: nat)
    requires n <= m <= |s.comps|
    ensures BlocksBefore(s, n) <= BlocksBefore(s, m)
    decreases m
  {
    if n < m {
      BlocksMono(s, n, m - 1);
    }
  }

  /** All blocks of an MCU in the single-pass workspace. */
  method BuildMcu(s: CoefScan, buf: array<Block>, im: nat, yoffset: nat, col: nat) returns (mcu: seq<Block>)
    requires ValidCoefScan(s) && buf.Length == C_MAX_BLOCKS_IN_MCU
    requires im < s.totalImcuRows && col < s.mcusPerRow && yoffset < McuRowsIn(s, im)
    modifies buf
    ensures mcu == Mcu(s, im, yoffset, col) && ImageMcu(s, RasterRow(s, im, yoffset), col, mcu)
  {
    hide AreaBlocks, ComponentBlocks, ImageMcu;
    McuIs(s, im, yoffset, col);
    var blkn := 0;
    var ci := 0;
    while ci < |s.comps|
      invariant 0 <= ci <= |s.comps| && blkn == BlocksBefore(s, ci)
      invariant blkn <= buf.Length && buf[..blkn] == McuBlocks(s, im, yoffset, col, ci)
    {
      BlocksMono(s, ci + 1, |s.comps|);
      blkn := FillComponent(s, buf, blkn, ci, im, yoffset, col);
      ci := ci + 1;
    }
    mcu := buf[..blkn];
  }

  // ----- full-image buffer

  /** Block columns of the virtual array: the width rounded up. */
  function PaddedWidth(c: Comp): nat
    requires c.h >= 1
  {
    (c.width + c.h - 1) / c.h * c.h
  }

  /** A row of the virtual array. */
  ghost predicate RowStored(c: Comp, r: nat, row: seq<Block>)
    requires ValidComp(c)
  {
    row == RowBlocks(c, r, 0, PaddedWidth(c))
  }

  /** A real block row with its dummy blocks at the right margin. */
  method LoadRealRow(c: Comp, r: nat) returns (row: seq<Block>)
    requires ValidComp(c) && r < c.height
    ensures RowStored(c, r, row)
  {
    var ndummy := c.width % c.h;
    if ndummy > 0 {
      ndummy := c.h - ndummy;
    }
    DummyCount(c);
    var wide := c.width + ndummy;
    var buf := new Block[wide](i => Dummy(0));
    ForwardDct(buf, 0, c, r, 0, c.width);
    PadRight(buf, [], 0, c, r, 0, c.width, wide);
    row := buf[..];
    assert buf[..0 + wide] == buf[..];
  }

  lemma {:induction false} DummyCount(c: Comp)
    requires ValidComp(c)
    ensures var n := if c.width % c.h > 0 then c.h - c.width % c.h else 0; c.width + n == PaddedWidth(c)
  {
    CeilParts(c.width, c.h);
    var q := (c.width + c.h - 1) / c.h;
    assert q * c.h == (q - 1) * c.h + c.h;
  }

  /** A dummy block row below the image, made MCU by MCU from the row above. */
  method LoadDummyRow(c: Comp, ghost r: nat, above: seq<Block>) returns (row: seq<Block>)
    requires ValidComp(c) && r >= c.height && RowStored(c, r - 1, above)
    ensures RowStored(c, r, row)
  {
    WholeMcus(c);
    var mcusAcross := PaddedWidth(c) / c.h;
    hide RowBlocks, Padded, PaddedWidth, ValidComp, RowStored, Area;
    row := [];
    NoneInRow(c, r);
    NoArea(c.h);
    var m: nat := 0;
    while m < mcusAcross
      invariant m <= mcusAcross && row == RowBlocks(c, r, 0, Area(m, c.h))
    {
      RoomLeft(m, mcusAcross, c.h);
      LastAbove(c, r - 1, above, m);
      row := LoadDummyMcu(c, r, Area(m, c.h), m, above[Area(m, c.h) + c.h - 1][0], row);
      m := m + 1;
    }
    WholeRow(c, r, row);
  }

  lemma {:induction false} WholeMcus(c: Comp)
    requires ValidComp(c)
    ensures c.h >= 1 && Area(PaddedWidth(c) / c.h, c.h) == PaddedWidth(c)
  {
    DivModUnique(PaddedWidth(c), c.h, (c.width + c.h - 1) / c.h, 0);
  }

  lemma {:induction false} WholeRow(c: Comp, r: nat, row: seq<Block>)
    requires ValidComp(c) && c.h >= 1
    ensures row == RowBlocks(c, r, 0, PaddedWidth(c)) ==> RowStored(c, r, row)
  {
  }

  lemma {:induction false} LastAbove(c: Comp, r: nat, above: seq<Block>, m: nat)
    requires ValidComp(c) && RowStored(c, r, above) && c.h >= 1 && Area(m, c.h) + c.h <= PaddedWidth(c)
    ensures var k := Area(m, c.h) + c.h - 1; k < |above| && above[k] == Padded(c, r, k)
  {
    RowAt(c, r, 0, PaddedWidth(c));
  }

  method LoadDummyMcu(c: Comp, ghost r: nat, ghost k: nat, ghost m: nat, lastDC: Coef, row0: seq<Block>) returns (row: seq<Block>)
    requires ValidComp(c) && r >= c.height && k == Area(m, c.h) && lastDC == Padded(c, r - 1, k + c.h - 1)[0]
    requires row0 == RowBlocks(c, r, 0, k)
    ensures row == RowBlocks(c, r, 0, k + c.h)
  {
    hide RowBlocks, Padded;
    row := row0;
    ColumnOf(k + c.h - 1, c.h, m, c.h - 1);
    var bi := 0;
    while bi < c.h
      invariant 0 <= bi <= c.h && row == RowBlocks(c, r, 0, k + bi)
    {
      ColumnOf(k + bi, c.h, m, bi);
      BelowIsCopy(c, r, k + bi, k + c.h - 1);
      NextInRow(c, r, k + bi);
      row := row + [Dummy(lastDC)];
      bi := bi + 1;
    }
  }

  lemma {:induction false} NoneInRow(c: Comp, r: nat)
    requires ValidComp(c)
    ensures RowBlocks(c, r, 0, 0) == []
  {
  }

  lemma {:induction false} NextInRow(c: Comp, r: nat, n: nat)
    requires ValidComp(c)
    ensures RowBlocks(c, r, 0, n + 1) == RowBlocks(c, r, 0, n) + [Padded(c, r, n)]
  {
  }

  /** Nothing but this DC value. */
  predicate DcOnly(b: Block, dc: Coef) {
    b[0] == dc && forall i :: 1 <= i < DCTSIZE2 ==> b[i] == 0
  }

  /** Block k of row y of a strip that begins at block row r: the component's own, or a dummy with
      the DC value of the block before it, or with that of the last block of its MCU one row up. */
  predicate StripBlockIs(c: Comp, r: nat, rows: seq<seq<Block>>, y: nat, k: nat)
    requires ValidComp(c) && y < |rows| && k < |rows[y]|
  {
    var last := k / c.h * c.h + c.h - 1;
    if r + y < c.height && k < c.width then rows[y][k] == c.blocks[r + y][k]
    else if r + y < c.height then k > 0 && DcOnly(rows[y][k], rows[y][k - 1][0])
    else y > 0 && last < |rows[y - 1]| && DcOnly(rows[y][k], rows[y - 1][last][0])
  }

  lemma {:induction false} StoredIs(c: Comp, r: nat, rows: seq<seq<Block>>, y: nat, k: nat)
    requires ValidComp(c) && r < c.height && y < |rows| && k < PaddedWidth(c)
    requires RowStored(c, r + y, rows[y]) && (y > 0 ==> RowStored(c, r + y - 1, rows[y - 1]))
    ensures |rows[y]| == PaddedWidth(c) && StripBlockIs(c, r, rows, y, k)
  {
    hide RowBlocks, PaddedWidth, Padded, DcOnly;
    StoredAt(c, r + y, rows[y], k);
    if r + y < c.height {
      if k >= c.width {
        RightIsCopy(c, r + y, k);
        StoredAt(c, r + y, rows[y], k - 1);
        DummyIs(rows[y][k - 1][0]);
      } else {
        RealBlock(c, r + y, k);
      }
    } else {
      var last := LastColumn(c, k);
      StoredAt(c, r + y - 1, rows[y - 1], last);
      BelowIsCopy(c, r + y, k, last);
      DummyIs(rows[y - 1][last][0]);
    }
  }

  lemma {:induction false} StoredAt(c: Comp, r: nat, row: seq<Block>, k: nat)
    requires ValidComp(c) && RowStored(c, r, row) && k < PaddedWidth(c)
    ensures |row| == PaddedWidth(c) && row[k] == Padded(c, r, k)
  {
    RowAt(c, r, 0, PaddedWidth(c));
  }

  lemma {:induction false} RealBlock(c: Comp, r: nat, k: nat)
    requires ValidComp(c) && r < c.height && k < c.width
    ensures Padded(c, r, k) == c.blocks[r][k]
  {
  }

  lemma {:induction false} DummyIs(dc: Coef)
    ensures DcOnly(Dummy(dc), dc)
  {
  }

  /** The last column of the MCU that column k belongs to. */
  lemma {:induction false} LastColumn(c: Comp, k: nat) returns (last: nat)
    requires ValidComp(c) && k < PaddedWidth(c)
    ensures last == k / c.h * c.h + c.h - 1 == last / c.h * c.h + c.h - 1 && last < PaddedWidth(c)
  {
    var m, n := k / c.h, (c.width + c.h - 1) / c.h;
    last := m * c.h + c.h - 1;
    assert k == m * c.h + k % c.h;
    assert (m + 1) * c.h == m * c.h + c.h;
    if m >= n {
      MulLe(n, m, c.h);
    }
    MulLe(m + 1, n, c.h);
    ColumnOf(last, c.h, m, c.h - 1);
  }

  /** The block rows of one iMCU row of a component (one strip of its virtual array). */
  method LoadStrip(c: Comp, total: nat, im: nat) returns (rows: seq<seq<Block>>)
    requires ValidComp(c) && total == (c.height + c.v - 1) / c.v && im < total
    ensures |rows| == c.v && forall y :: 0 <= y < c.v ==> RowStored(c, im * c.v + y, rows[y])
    ensures forall y :: 0 <= y < c.v ==> |rows[y]| == PaddedWidth(c)
    ensures 0 <= im * c.v < c.height
    ensures forall y, k :: 0 <= y < c.v && 0 <= k < |rows[y]| ==> StripBlockIs(c, im * c.v, rows, y, k)
  {
    var blockRows := if im < total - 1 then c.v else LastPart(c.height, c.v);
    CeilParts(c.height, c.v);
    RowHeight(c, total, im, 0);
    RowHeight(c, total, im, c.v - 1);
    hide RowStored;
    rows := [];
    while |rows| < blockRows
      invariant |rows| <= blockRows
      invariant forall y :: 0 <= y < |rows| ==> RowStored(c, im * c.v + y, rows[y])
    {
      var y := |rows|;
      RowHeight(c, total, im, y);
      var row := LoadRealRow(c, im * c.v + y);
      rows := rows + [row];
    }
    while |rows| < c.v
      invariant blockRows <= |rows| <= c.v
      invariant forall y :: 0 <= y < |rows| ==> RowStored(c, im * c.v + y, rows[y])
    {
      var y := |rows|;
      RowHeight(c, total, im, y);
      var row := LoadDummyRow(c, im * c.v + y, rows[y - 1]);
      rows := rows + [row];
    }
    StripIs(c, im * c.v, rows);
  }

  lemma {:induction false} StripIs(c: Comp, r: nat, rows: seq<seq<Block>>)
    requires ValidComp(c) && r < c.height && forall y :: 0 <= y < |rows| ==> RowStored(c, r + y, rows[y])
    ensures forall y :: 0 <= y < |rows| ==> |rows[y]| == PaddedWidth(c)
    ensures forall y, k :: 0 <= y < |rows| && 0 <= k < |rows[y]| ==> StripBlockIs(c, r, rows, y, k)
  {
    forall y | 0 <= y < |rows|
      ensures |rows[y]| == PaddedWidth(c)
    {
      assert RowStored(c, r + y, rows[y]);
    }
    forall y, k | 0 <= y < |rows| && 0 <= k < |rows[y]|
      ensures StripBlockIs(c, r, rows, y, k)
    {
      assert y > 0 ==> RowStored(c, r + (y - 1), rows[y - 1]);
      StoredIs(c, r, rows, y, k);
    }
  }

  // ----- the sequence of MCUs

  /** The first n MCUs of an MCU row. */
  function RowMcus(s: CoefScan, im: nat, yoffset: nat, n: nat): seq<seq<Block>>
    requires ValidCoefScan(s)
  {
    if n == 0 then [] else RowMcus(s, im, yoffset, n - 1) + [Mcu(s, im, yoffset, n - 1)]
  }

  /** The first n MCU rows of an iMCU row. */
  function ImcuMcus(s: CoefScan, im: nat, n: nat): seq<seq<Block>>
    requires ValidCoefScan(s)
  {
    if n == 0 then [] else ImcuMcus(s, im, n - 1) + RowMcus(s, im, n - 1, s.mcusPerRow)
  }

  /** The MCUs of the first n iMCU rows. */
  function AllMcus(s: CoefScan, n: nat): seq<seq<Block>>
    requires ValidCoefScan(s)
  {
    if n == 0 then [] else AllMcus(s, n - 1) + ImcuMcus(s, n - 1, McuRowsIn(s, n - 1))
  }

  /** All MCUs before a position, in raster order. */
  function McusBefore(s: CoefScan, im: nat, yoffset: nat, col: nat): seq<seq<Block>>
    requires ValidCoefScan(s)
  {
    AllMcus(s, im) + ImcuMcus(s, im, yoffset) + RowMcus(s, im, yoffset, col)
  }

  /** The first iMCU rows of a virtual array are filled in. */
  ghost predicate RowsStored(c: Comp, imcuRows: nat, rows: seq<seq<Block>>)
    requires ValidComp(c)
  {
    |rows| >= imcuRows * c.v && forall r :: 0 <= r < |rows| ==> RowStored(c, r, rows[r])
  }

  class CoefCtl {
    const s: CoefScan
    const buffered: bool                    // a full-image buffer is in use
    const mcuBuffer: array<Block>
    var whole: seq<seq<seq<Block>>>         // whole_image, the rows stored so far
    var imcuRowNum: nat
    var mcuCtr: nat
    var mcuVertOffset: nat
    var mcuRowsPerImcuRow: nat
    ghost var sent: seq<seq<Block>>         // MCUs the entropy encoder has accepted

    /** What the buffer must hold before iMCU row n is read from it. */
    ghost predicate Stored(n: nat)
      requires ValidCoefScan(s)
      reads this
    {
      |whole| == |s.comps| && forall ci :: 0 <= ci < |whole| ==> RowsStored(s.comps[ci], n, whole[ci])
    }

    ghost predicate Valid()
      reads this
    {
      && ValidCoefScan(s) && mcuBuffer.Length == C_MAX_BLOCKS_IN_MCU && imcuRowNum <= s.totalImcuRows
      && (imcuRowNum < s.totalImcuRows ==>
            mcuRowsPerImcuRow == McuRowsIn(s, imcuRowNum) && mcuVertOffset < mcuRowsPerImcuRow && mcuCtr < s.mcusPerRow)
      && (imcuRowNum == s.totalImcuRows ==> mcuCtr == 0 && mcuVertOffset == 0)
      && sent == McusBefore(s, imcuRowNum, mcuVertOffset, mcuCtr)
    }

    /** start_pass_coef, for a controller whose buffer may be filled already. */
    constructor (s: CoefScan, whole: seq<seq<seq<Block>>>)
      requires ValidCoefScan(s)
      ensures Valid() && this.s == s && this.whole == whole && sent == [] && imcuRowNum == 0 && fresh(mcuBuffer)
    {
      this.s, this.whole, imcuRowNum := s, whole, 0;
      mcuBuffer := new Block[C_MAX_BLOCKS_IN_MCU](i => Dummy(0));
      sent := [];
      new;
      StartImcuRow();
      SomeRows(s, 0);
    }

    method StartImcuRow()
      requires ValidCoefScan(s)
      modifies `mcuRowsPerImcuRow, `mcuCtr, `mcuVertOffset
      ensures mcuCtr == 0 && mcuVertOffset == 0
      ensures imcuRowNum < s.totalImcuRows ==> mcuRowsPerImcuRow == McuRowsIn(s, imcuRowNum)
    {
      if |s.comps| > 1 {
        mcuRowsPerImcuRow := 1;
      } else if imcuRowNum < s.totalImcuRows - 1 {
        mcuRowsPerImcuRow := s.comps[0].v;
      } else {
        mcuRowsPerImcuRow := LastPart(s.comps[0].height, s.comps[0].v);
      }
      mcuCtr := 0;
      mcuVertOffset := 0;
    }

    /** The blocks of an MCU out of the full-image buffer. */
    method FetchMcu(yoffset: nat, col: nat) returns (mcu: seq<Block>)
      requires ValidCoefScan(s) && imcuRowNum < s.totalImcuRows && Stored(imcuRowNum + 1)
      requires yoffset < McuRowsIn(s, imcuRowNum) && col < s.mcusPerRow
      ensures mcu == Mcu(s, imcuRowNum, yoffset, col) && ImageMcu(s, RasterRow(s, imcuRowNum, yoffset), col, mcu)
    {
      hide AreaBlocks, ComponentBlocks, ValidCoefScan, RowsStored, ImageMcu;
      McuIs(s, imcuRowNum, yoffset, col);
      mcu := [];
      var ci := 0;
      while ci < |s.comps|
        invariant 0 <= ci <= |s.comps| && mcu == McuBlocks(s, imcuRowNum, yoffset, col, ci)
      {
        var blocks := FetchArea(s, whole[ci], ci, imcuRowNum, yoffset, col);
        mcu := mcu + blocks;
        ci := ci + 1;
      }
    }

    /** The loop shared by compress_data and compress_output: the entropy encoder
        takes `accept` MCUs before it refuses one. */
    method SendImcuRow(accept: nat, fromBuffer: bool) returns (done: bool)
      requires Valid() && imcuRowNum < s.totalImcuRows && (fromBuffer ==> Stored(imcuRowNum + 1))
      modifies `imcuRowNum, `mcuCtr, `mcuVertOffset, `mcuRowsPerImcuRow, `sent, mcuBuffer
      ensures Valid() && old(sent) <= sent
      ensures done ==> imcuRowNum == old(imcuRowNum) + 1 && mcuVertOffset == 0 && mcuCtr == 0 && |sent| > |old(sent)|
      ensures !done ==> imcuRowNum == old(imcuRowNum) && |sent| == |old(sent)| + accept
    {
      hide ValidCoefScan, Mcu, ImcuMcus, AllMcus, RowMcus, RowsStored, McusBefore, McuRowsIn;
      ghost var start := sent;
      var taken: nat := 0;
      var yoffset := mcuVertOffset;
      while yoffset < mcuRowsPerImcuRow
        invariant ValidCoefScan(s) && mcuBuffer.Length == C_MAX_BLOCKS_IN_MCU && imcuRowNum == old(imcuRowNum)
        invariant mcuRowsPerImcuRow == old(mcuRowsPerImcuRow) == McuRowsIn(s, imcuRowNum) && yoffset <= mcuRowsPerImcuRow
        invariant (fromBuffer ==> Stored(imcuRowNum + 1)) && (yoffset < mcuRowsPerImcuRow ==> mcuCtr < s.mcusPerRow)
        invariant yoffset == mcuRowsPerImcuRow ==> mcuCtr == 0
        invariant sent == McusBefore(s, imcuRowNum, yoffset, mcuCtr)
        invariant start <= sent && |sent| == |start| + taken && taken <= accept
        invariant taken > 0 || (yoffset == old(mcuVertOffset) && mcuCtr == old(mcuCtr))
      {
        var col := mcuCtr;
        while col < s.mcusPerRow
          invariant 0 <= col <= s.mcusPerRow && imcuRowNum == old(imcuRowNum) && mcuRowsPerImcuRow == old(mcuRowsPerImcuRow)
          invariant fromBuffer ==> Stored(imcuRowNum + 1)
          invariant sent == McusBefore(s, imcuRowNum, yoffset, col)
          invariant start <= sent && |sent| == |start| + taken && taken <= accept
          invariant taken > 0 || (yoffset == old(mcuVertOffset) && col == old(mcuCtr) < s.mcusPerRow)
        {
          var mcu;
          if fromBuffer {
            mcu := FetchMcu(yoffset, col);
          } else {
            mcu := BuildMcu(s, mcuBuffer, imcuRowNum, yoffset, col);
          }
          if taken == accept {   // encode_mcu refuses
            mcuVertOffset := yoffset;
            mcuCtr := col;
            return false;
          }
          NextMcu(s, imcuRowNum, yoffset, col);
          sent := sent + [mcu];
          taken := taken + 1;
          col := col + 1;
        }
        RowDone(s, imcuRowNum, yoffset);
        SomeColumns(s);
        mcuCtr := 0;
        yoffset := yoffset + 1;
      }
      ImcuDone(s, imcuRowNum);
      imcuRowNum := imcuRowNum + 1;
      StartImcuRow();
      SomeRows(s, imcuRowNum);
      done := true;
    }

    /** compress_data: single-pass compression of one iMCU row. */
    method CompressData(accept: nat) returns (done: bool)
      requires Valid() && imcuRowNum < s.totalImcuRows
      modifies `imcuRowNum, `mcuCtr, `mcuVertOffset, `mcuRowsPerImcuRow, `sent, mcuBuffer
      ensures Valid() && old(sent) <= sent
      ensures done ==> imcuRowNum == old(imcuRowNum) + 1 && |sent| > |old(sent)|
      ensures !done ==> imcuRowNum == old(imcuRowNum) && |sent| == |old(sent)| + accept
    {
      done := SendImcuRow(accept, false);
    }

    /** compress_output: the same from the full-image buffer. */
    method CompressOutput(accept: nat) returns (done: bool)
      requires Valid() && imcuRowNum < s.totalImcuRows && Stored(imcuRowNum + 1)
      modifies `imcuRowNum, `mcuCtr, `mcuVertOffset, `mcuRowsPerImcuRow, `sent, mcuBuffer
      ensures Valid() && old(sent) <= sent
      ensures done ==> imcuRowNum == old(imcuRowNum) + 1 && |sent| > |old(sent)|
      ensures !done ==> imcuRowNum == old(imcuRowNum) && |sent| == |old(sent)| + accept
    {
      done := SendImcuRow(accept, true);
    }

    /** Load the strip of every component for this iMCU row, or load it again. */
    method LoadStrips()
      requires Valid() && imcuRowNum < s.totalImcuRows && Stored(imcuRowNum)
      modifies `whole
      ensures Valid() && Stored(imcuRowNum + 1)
    {
      hide McusBefore, McuRowsIn, RowsStored;
      var ci := 0;
      while ci < |s.comps|
        invariant 0 <= ci <= |s.comps| && |whole| == |s.comps|
        invariant Valid()
        invariant forall j :: 0 <= j < ci ==> RowsStored(s.comps[j], imcuRowNum + 1, whole[j])
        invariant forall j :: ci <= j < |whole| ==> RowsStored(s.comps[j], imcuRowNum, whole[j])
      {
        assert RowsStored(s.comps[ci], imcuRowNum, whole[ci]);
        var rows := ReloadStrip(s.comps[ci], s.totalImcuRows, imcuRowNum, whole[ci]);
        whole := whole[ci := rows];
        ci := ci + 1;
      }
    }

    /** compress_first_pass: load the strips, again after a suspension, and send
        the iMCU row from the buffer. */
    method CompressFirstPass(accept: nat) returns (done: bool)
      requires Valid() && imcuRowNum < s.totalImcuRows && Stored(imcuRowNum)
      modifies this, mcuBuffer
      ensures Valid() && old(sent) <= sent && Stored(imcuRowNum)
      ensures done ==> imcuRowNum == old(imcuRowNum) + 1 && |sent| > |old(sent)|
      ensures !done ==> imcuRowNum == old(imcuRowNum) && |sent| == |old(sent)| + accept
    {
      hide McusBefore, McuRowsIn, RowsStored;
      LoadStrips();
      done := SendImcuRow(accept, true);
      forall j | 0 <= j < |whole|
        ensures RowsStored(s.comps[j], imcuRowNum, whole[j])
      {
        FewerStored(s.comps[j], old(imcuRowNum), whole[j]);
      }
    }
  }

  method ReloadStrip(c: Comp, total: nat, im: nat, rows: seq<seq<Block>>) returns (rows': seq<seq<Block>>)
    requires ValidComp(c) && total == (c.height + c.v - 1) / c.v && im < total && RowsStored(c, im, rows)
    ensures RowsStored(c, im + 1, rows')
  {
    var strip := LoadStrip(c, total, im);
    RowHeight(c, total, im, 0);
    hide RowStored, LastPart;
    StripStored(c, im, rows, strip);
    rows' := rows[..im * c.v] + strip;
  }

  lemma {:induction false} StripStored(c: Comp, im: nat, rows: seq<seq<Block>>, strip: seq<seq<Block>>)
    requires ValidComp(c) && RowsStored(c, im, rows) && |strip| == c.v && im * c.v >= 0
    requires forall y :: 0 <= y < c.v ==> RowStored(c, im * c.v + y, strip[y])
    ensures RowsStored(c, im + 1, rows[..im * c.v] + strip)
  {
    hide RowStored;
    var n := im * c.v;
    assert (im + 1) * c.v == n + c.v;
    var all := rows[..n] + strip;
    forall r | 0 <= r < |all|
      ensures RowStored(c, r, all[r])
    {
      if r >= n {
        assert all[r] == strip[r - n] && RowStored(c, n + (r - n), strip[r - n]);
      }
    }
  }

  lemma {:induction false} FewerStored(c: Comp, im: nat, rows: seq<seq<Block>>)
    requires ValidComp(c) && RowsStored(c, im + 1, rows)
    ensures RowsStored(c, im, rows)
  {
    assert (im + 1) * c.v == im * c.v + c.v;
  }

  /** One component's blocks of an MCU, from its virtual array. */
  method FetchArea(s: CoefScan, rows: seq<seq<Block>>, ci: nat, im: nat, yoffset: nat, col: nat) returns (blocks: seq<Block>)
    requires ValidCoefScan(s) && ci < |s.comps| && im < s.totalImcuRows && col < s.mcusPerRow && yoffset < McuRowsIn(s, im)
    requires RowsStored(s.comps[ci], im + 1, rows)
    ensures blocks == ComponentBlocks(s, ci, im, yoffset, col)
  {
    WidthPositive(s, ci);
    hide RowBlocks, AreaBlocks, ValidCoefScan, ValidComp, RowsStored, RowOf, ColOf, McuRowsIn, CoefScan.McuWidth, CoefScan.McuHeight, CoefScan.Interleaved;
    var c, w, mh := s.comps[ci], s.McuWidth(ci), s.McuHeight(ci);
    var row0, startCol := RowOf(s, ci, im, yoffset), ColOf(s, ci, col);
    blocks := [];
    AreaStep(c, row0, startCol, w, 0);
    var yindex := 0;
    while yindex < mh
      invariant 0 <= yindex <= mh
      invariant blocks == AreaBlocks(c, row0, startCol, w, yindex)
    {
      StoredPart(s, rows, ci, im, yoffset, yindex, col);
      AreaStep(c, row0, startCol, w, yindex);
      blocks := blocks + rows[row0 + yindex][startCol..startCol + w];
      yindex := yindex + 1;
    }
  }

  /** The part of a stored row that belongs to an MCU. */
  lemma {:induction false} StoredPart(s: CoefScan, rows: seq<seq<Block>>, ci: nat, im: nat, yoffset: nat, yindex: nat, col: nat)
    requires ValidCoefScan(s) && ci < |s.comps| && im < s.totalImcuRows && col < s.mcusPerRow && yoffset < McuRowsIn(s, im)
    requires RowsStored(s.comps[ci], im + 1, rows) && yindex < s.McuHeight(ci)
    ensures ValidComp(s.comps[ci])
    ensures var r, k, w := RowOf(s, ci, im, yoffset) + yindex, ColOf(s, ci, col), s.McuWidth(ci);
            r < |rows| && k + w <= |rows[r]| && rows[r][k..k + w] == RowBlocks(s.comps[ci], r, k, w)
  {
    var c, w := s.comps[ci], s.McuWidth(ci);
    McuRowReal(s, im, yoffset, ci);
    ColumnStored(s, ci, col);
    assert (im + 1) * c.v == im * c.v + c.v;
    var r := im * c.v + yoffset + yindex;
    hide RowBlocks, ValidCoefScan, Padded, PaddedWidth;
    assert RowStored(c, r, rows[r]);
    RowSlice(c, r, col * w, w);
  }

  lemma {:induction false} ColumnStored(s: CoefScan, ci: nat, col: nat)
    requires ValidCoefScan(s) && ci < |s.comps| && col < s.mcusPerRow
    ensures col * s.McuWidth(ci) >= 0 && col * s.McuWidth(ci) + s.McuWidth(ci) <= PaddedWidth(s.comps[ci])
  {
    var c, w := s.comps[ci], s.McuWidth(ci);
    CeilParts(c.width, w);
    WideEnough(c);
    if s.Interleaved() {
      RoundedUp(c, col);
    }
  }

  lemma {:induction false} WideEnough(c: Comp)
    requires ValidComp(c)
    ensures PaddedWidth(c) >= c.width
  {
    CeilParts(c.width, c.h);
    var q := (c.width + c.h - 1) / c.h;
    assert q * c.h == (q - 1) * c.h + c.h;
  }

  lemma {:induction false} RoundedUp(c: Comp, col: nat)
    requires ValidComp(c) && col < (c.width + c.h - 1) / c.h
    ensures col * c.h >= 0 && col * c.h + c.h <= PaddedWidth(c)
  {
    MulLe(col + 1, (c.width + c.h - 1) / c.h, c.h);
    assert (col + 1) * c.h == col * c.h + c.h;
  }

  lemma {:induction false} RowSlice(c: Comp, r: nat, k: nat, n: nat)
    requires ValidComp(c) && k + n <= PaddedWidth(c)
    ensures |RowBlocks(c, r, 0, PaddedWidth(c))| == PaddedWidth(c)
    ensures RowBlocks(c, r, 0, PaddedWidth(c))[k..k + n] == RowBlocks(c, r, k, n)
  {
    RowAt(c, r, 0, PaddedWidth(c));
    RowAt(c, r, k, n);
    hide RowBlocks, Padded, PaddedWidth;
  }

  lemma {:induction false} SomeColumns(s: CoefScan)
    requires ValidCoefScan(s)
    ensures s.mcusPerRow >= 1
  {
  }

  lemma {:induction false} SomeRows(s: CoefScan, im: nat)
    requires ValidCoefScan(s) && im <= s.totalImcuRows
    ensures s.mcusPerRow >= 1 && s.totalImcuRows >= 1 && McuRowsIn(s, im) >= 1
    ensures McusBefore(s, 0, 0, 0) == []
  {
  }

  lemma {:induction false} NextMcu(s: CoefScan, im: nat, yoffset: nat, col: nat)
    requires ValidCoefScan(s)
    ensures McusBefore(s, im, yoffset, col + 1) == McusBefore(s, im, yoffset, col) + [Mcu(s, im, yoffset, col)]
  {
  }

  lemma {:induction false} RowDone(s: CoefScan, im: nat, yoffset: nat)
    requires ValidCoefScan(s)
    ensures McusBefore(s, im, yoffset + 1, 0) == McusBefore(s, im, yoffset, s.mcusPerRow)
  {
    var a, b, c := AllMcus(s, im), ImcuMcus(s, im, yoffset), RowMcus(s, im, yoffset, s.mcusPerRow);
    assert a + (b + c) + [] == a + b + c;
  }

  lemma {:induction false} ImcuDone(s: CoefScan, im: nat)
    requires ValidCoefScan(s)
    ensures McusBefore(s, im + 1, 0, 0) == McusBefore(s, im, McuRowsIn(s, im), 0)
  {
    var a, b := AllMcus(s, im), ImcuMcus(s, im, McuRowsIn(s, im));
    assert (a + b) + [] + [] == a + b + [];
  }

  // ----- what an MCU contains, block by block

  /** Block x of row y of a component of an MCU that begins at block row r and column k and has w
      blocks in a row. Inside the image it is the component's own block; right of it, it has the
      DC value of the block before it, and below it that of the last block one row up. */
  ghost predicate BlockIs(c: Comp, r: nat, k: nat, w: nat, bs: seq<Block>, y: nat, x: nat)
    requires ValidComp(c)
  {
    var i := Area(y, w) + x;
    if i >= |bs| then false
    else if r + y < c.height && k + x < c.width then bs[i] == c.blocks[r + y][k + x]
    else if r + y < c.height then x > 0 && DcOnly(bs[i], bs[i - 1][0])
    else y > 0 && Area(y, w) > 0 && DcOnly(bs[i], bs[Area(y, w) - 1][0])
  }

  /** n rows of w blocks, each as it should be. */
  ghost predicate BlocksAre(c: Comp, r: nat, k: nat, w: nat, n: nat, bs: seq<Block>)
    requires ValidComp(c)
  {
    |bs| == Area(n, w) && forall y: nat, x: nat :: y < n && x < w ==> BlockIs(c, r, k, w, bs, y, x)
  }

  /** The part of an MCU that belongs to component ci. */
  function PartOf(s: CoefScan, mcu: seq<Block>, ci: nat): seq<Block>
    requires ci < |s.comps| && |mcu| == BlocksBefore(s, |s.comps|)
  {
    BlocksMono(s, ci + 1, |s.comps|);
    mcu[BlocksBefore(s, ci)..BlocksBefore(s, ci + 1)]
  }

  /** The MCU in MCU row R and column col of the scan. In a scan of one component every block is
      an MCU, and R counts block rows. */
  ghost predicate ImageMcu(s: CoefScan, R: nat, col: nat, mcu: seq<Block>)
    requires ValidCoefScan(s)
  {
    && |mcu| == BlocksBefore(s, |s.comps|)
    && forall ci :: 0 <= ci < |s.comps| ==>
         BlocksAre(s.comps[ci], Area(R, s.McuHeight(ci)), Area(col, s.McuWidth(ci)), s.McuWidth(ci), s.McuHeight(ci), PartOf(s, mcu, ci))
  }

  /** MCU j is the one in row j / mcusPerRow and column j % mcusPerRow. */
  ghost predicate InRasterOrder(s: CoefScan, mcus: seq<seq<Block>>)
    requires ValidCoefScan(s)
  {
    forall j :: 0 <= j < |mcus| ==> ImageMcu(s, j / s.mcusPerRow, j % s.mcusPerRow, mcus[j])
  }

  /** MCU rows of the whole scan. */
  function McuRowCount(s: CoefScan): nat
    requires ValidCoefScan(s)
  {
    if s.Interleaved() then s.totalImcuRows else s.comps[0].height
  }

  lemma {:induction false} AreaAt(c: Comp, r: nat, k: nat, w: nat, n: nat, y: nat, x: nat)
    requires ValidComp(c) && y < n && x < w
    ensures Area(y, w) + x < |AreaBlocks(c, r, k, w, n)| == Area(n, w)
    ensures AreaBlocks(c, r, k, w, n)[Area(y, w) + x] == Padded(c, r + y, k + x)
    decreases n
  {
    AreaSize(c, r, k, w, n);
    AreaSize(c, r, k, w, n - 1);
    AreaStep(c, r, k, w, n - 1);
    RoomLeft(n - 1, n, w);
    RowAt(c, r + n - 1, k, w);
    hide AreaBlocks, RowBlocks, Padded, Area;
    if y < n - 1 {
      AreaAt(c, r, k, w, n - 1, y, x);
    } else {
      assert AreaBlocks(c, r, k, w, n)[Area(y, w) + x] == RowBlocks(c, r + y, k, w)[x];
    }
  }

  lemma {:induction false} AreaSize(c: Comp, r: nat, k: nat, w: nat, n: nat)
    requires ValidComp(c)
    ensures |AreaBlocks(c, r, k, w, n)| == Area(n, w)
  {
    hide RowBlocks, Padded;
    if n > 0 {
      AreaSize(c, r, k, w, n - 1);
      RoomLeft(n - 1, n, w);
    }
  }

  /** Padding, seen block by block. */
  lemma {:induction false} AreaIs(c: Comp, r: nat, k: nat, w: nat, n: nat, m: nat)
    requires ValidComp(c) && r < c.height && k < c.width && w >= 1
    requires n > 1 ==> w == c.h && k == Area(m, w)
    ensures BlocksAre(c, r, k, w, n, AreaBlocks(c, r, k, w, n))
  {
    hide AreaBlocks, Padded, BlockIs, Area;
    AreaSize(c, r, k, w, n);
    var bs := AreaBlocks(c, r, k, w, n);
    forall y: nat, x: nat | y < n && x < w
      ensures BlockIs(c, r, k, w, bs, y, x)
    {
      PaddedIs(c, r, k, w, n, m, y, x);
    }
  }

  lemma {:induction false} PaddedIs(c: Comp, r: nat, k: nat, w: nat, n: nat, m: nat, y: nat, x: nat)
    requires ValidComp(c) && r < c.height && k < c.width && w >= 1 && y < n && x < w
    requires n > 1 ==> w == c.h && k == Area(m, w)
    ensures BlockIs(c, r, k, w, AreaBlocks(c, r, k, w, n), y, x)
  {
    AreaAt(c, r, k, w, n, y, x);
    if r + y < c.height {
      if k + x >= c.width {
        AreaAt(c, r, k, w, n, y, x - 1);
        RightIsCopy(c, r + y, k + x);
      }
    } else {
      RoomLeft(y - 1, y, w);
      AreaAt(c, r, k, w, n, y - 1, w - 1);
      ColumnOf(k + x, w, m, x);
      ColumnOf(k + w - 1, w, m, w - 1);
      BelowIsCopy(c, r + y, k + x, k + w - 1);
    }
  }

  lemma {:induction false} McuSizes(s: CoefScan, im: nat, yoffset: nat, col: nat, n: nat)
    requires ValidCoefScan(s) && n <= |s.comps|
    ensures |McuBlocks(s, im, yoffset, col, n)| == BlocksBefore(s, n)
  {
    if n > 0 {
      McuSizes(s, im, yoffset, col, n - 1);
      AreaSize(s.comps[n - 1], RowOf(s, n - 1, im, yoffset), ColOf(s, n - 1, col), s.McuWidth(n - 1), s.McuHeight(n - 1));
    }
  }

  lemma {:induction false} McuPart(s: CoefScan, im: nat, yoffset: nat, col: nat, n: nat, ci: nat)
    requires ValidCoefScan(s) && ci < n <= |s.comps|
    ensures BlocksBefore(s, ci) <= BlocksBefore(s, ci + 1) <= BlocksBefore(s, n) == |McuBlocks(s, im, yoffset, col, n)|
    ensures McuBlocks(s, im, yoffset, col, n)[BlocksBefore(s, ci)..BlocksBefore(s, ci + 1)] == ComponentBlocks(s, ci, im, yoffset, col)
    decreases n
  {
    hide ComponentBlocks, BlocksBefore, ValidCoefScan;
    McuSizes(s, im, yoffset, col, n);
    McuSizes(s, im, yoffset, col, n - 1);
    BlocksMono(s, ci, ci + 1);
    BlocksMono(s, ci + 1, n);
    if ci < n - 1 {
      McuPart(s, im, yoffset, col, n - 1, ci);
      BlocksMono(s, n - 1, n);
    }
  }

  /** The MCU row of an MCU row within an iMCU row. */
  function RasterRow(s: CoefScan, im: nat, yoffset: nat): nat
    requires ValidCoefScan(s)
  {
    if s.Interleaved() then im else Area(im, s.comps[0].v) + yoffset
  }

  lemma {:induction false} McuIs(s: CoefScan, im: nat, yoffset: nat, col: nat)
    requires ValidCoefScan(s) && im < s.totalImcuRows && col < s.mcusPerRow && yoffset < McuRowsIn(s, im)
    ensures ImageMcu(s, RasterRow(s, im, yoffset), col, Mcu(s, im, yoffset, col))
  {
    McuSizes(s, im, yoffset, col, |s.comps|);
    forall ci | 0 <= ci < |s.comps|
      ensures BlocksAre(s.comps[ci], Area(RasterRow(s, im, yoffset), s.McuHeight(ci)), Area(col, s.McuWidth(ci)), s.McuWidth(ci), s.McuHeight(ci),
                        PartOf(s, Mcu(s, im, yoffset, col), ci))
    {
      McuPart(s, im, yoffset, col, |s.comps|, ci);
      PartIs(s, im, yoffset, col, ci);
    }
  }

  lemma {:induction false} PartIs(s: CoefScan, im: nat, yoffset: nat, col: nat, ci: nat)
    requires ValidCoefScan(s) && im < s.totalImcuRows && col < s.mcusPerRow && yoffset < McuRowsIn(s, im) && ci < |s.comps|
    ensures BlocksAre(s.comps[ci], Area(RasterRow(s, im, yoffset), s.McuHeight(ci)), Area(col, s.McuWidth(ci)), s.McuWidth(ci), s.McuHeight(ci),
                      ComponentBlocks(s, ci, im, yoffset, col))
  {
    var c, w := s.comps[ci], s.McuWidth(ci);
    McuRowReal(s, im, yoffset, ci);
    ColumnWidth(s, ci, col);
    WidthPositive(s, ci);
    RowsMatch(s, im, yoffset, ci);
    AreaIs(c, RowOf(s, ci, im, yoffset), ColOf(s, ci, col), w, s.McuHeight(ci), col);
  }

  lemma {:induction false} RowsMatch(s: CoefScan, im: nat, yoffset: nat, ci: nat)
    requires ValidCoefScan(s) && yoffset < McuRowsIn(s, im) && ci < |s.comps|
    ensures Area(RasterRow(s, im, yoffset), s.McuHeight(ci)) == RowOf(s, ci, im, yoffset)
  {
  }

  /** MCUs from row R on. */
  ghost predicate FromRow(s: CoefScan, R: nat, mcus: seq<seq<Block>>)
    requires ValidCoefScan(s)
  {
    forall j :: 0 <= j < |mcus| ==> ImageMcu(s, R + j / s.mcusPerRow, j % s.mcusPerRow, mcus[j])
  }

  lemma {:induction false} RowsAppend(s: CoefScan, R: nat, a: seq<seq<Block>>, m: nat, b: seq<seq<Block>>)
    requires ValidCoefScan(s) && FromRow(s, R, a) && |a| == Area(m, s.mcusPerRow) && FromRow(s, R + m, b)
    ensures FromRow(s, R, a + b)
  {
    hide ImageMcu, Area;
    SomeColumns(s);
    hide ValidCoefScan;
    var all := a + b;
    forall j | 0 <= j < |all|
      ensures ImageMcu(s, R + j / s.mcusPerRow, j % s.mcusPerRow, all[j])
    {
      if j < |a| {
        assert all[j] == a[j];
      } else {
        var i := j - |a|;
        SplitIndex(m, s.mcusPerRow, i);
        assert all[j] == b[i] && ImageMcu(s, R + m + i / s.mcusPerRow, i % s.mcusPerRow, b[i]);
      }
    }
  }

  lemma {:induction false} SplitIndex(m: nat, w: nat, i: nat)
    requires w > 0
    ensures (Area(m, w) + i) / w == m + i / w && (Area(m, w) + i) % w == i % w
  {
    var q, r := i / w, i % w;
    assert (m + q) * w == m * w + q * w;
    DivModUnique(Area(m, w) + i, w, m + q, r);
  }

  lemma {:induction false} RowIs(s: CoefScan, im: nat, yoffset: nat, n: nat)
    requires ValidCoefScan(s) && im < s.totalImcuRows && yoffset < McuRowsIn(s, im) && n <= s.mcusPerRow
    ensures |RowMcus(s, im, yoffset, n)| == n && FromRow(s, RasterRow(s, im, yoffset), RowMcus(s, im, yoffset, n))
  {
    hide ImageMcu, Mcu;
    if n > 0 {
      RowIs(s, im, yoffset, n - 1);
      McuIs(s, im, yoffset, n - 1);
      DivModUnique(n - 1, s.mcusPerRow, 0, n - 1);
    }
  }

  lemma {:induction false} ImcuIs(s: CoefScan, im: nat, n: nat)
    requires ValidCoefScan(s) && im < s.totalImcuRows && n <= McuRowsIn(s, im)
    ensures |ImcuMcus(s, im, n)| == Area(n, s.mcusPerRow) && FromRow(s, RasterRow(s, im, 0), ImcuMcus(s, im, n))
  {
    hide FromRow, RowMcus, ValidCoefScan;
    if n == 0 {
      NoMcus(s, RasterRow(s, im, 0));
      NoArea(s.mcusPerRow);
    } else {
      ImcuIs(s, im, n - 1);
      RowIs(s, im, n - 1, s.mcusPerRow);
      SomeColumns(s);
      RoomLeft(n - 1, n, s.mcusPerRow);
      NextRasterRow(s, im, n - 1);
      RowsAppend(s, RasterRow(s, im, 0), ImcuMcus(s, im, n - 1), n - 1, RowMcus(s, im, n - 1, s.mcusPerRow));
    }
  }

  lemma {:induction false} NextRasterRow(s: CoefScan, im: nat, y: nat)
    requires ValidCoefScan(s) && y < McuRowsIn(s, im)
    ensures RasterRow(s, im, y) == RasterRow(s, im, 0) + y
  {
  }

  lemma {:induction false} NoMcus(s: CoefScan, R: nat)
    requires ValidCoefScan(s)
    ensures FromRow(s, R, [])
  {
  }

  /** MCU rows before an iMCU row. */
  function RowsBefore(s: CoefScan, n: nat): nat
    requires ValidCoefScan(s) && n <= s.totalImcuRows
  {
    if n == s.totalImcuRows then McuRowCount(s) else RasterRow(s, n, 0)
  }

  lemma {:induction false} RowsAfter(s: CoefScan, im: nat)
    requires ValidCoefScan(s) && im < s.totalImcuRows
    ensures RowsBefore(s, im + 1) == RasterRow(s, im, 0) + McuRowsIn(s, im) && RowsBefore(s, 0) == 0
  {
    var c := s.comps[0];
    if !s.Interleaved() {
      CeilParts(c.height, c.v);
      assert Area(im + 1, c.v) == Area(im, c.v) + c.v by { RoomLeft(im, im + 1, c.v); }
    }
    NoArea(c.v);
  }

  lemma {:induction false} AllAre(s: CoefScan, n: nat)
    requires ValidCoefScan(s) && n <= s.totalImcuRows
    ensures |AllMcus(s, n)| == Area(RowsBefore(s, n), s.mcusPerRow) && FromRow(s, 0, AllMcus(s, n))
  {
    hide FromRow, ImcuMcus, ValidCoefScan, RasterRow, RowsBefore, McuRowsIn;
    if n == 0 {
      NoMcus(s, 0);
      SomeRows(s, 0);
      RowsAfter(s, 0);
      NoArea(s.mcusPerRow);
    } else {
      AllAre(s, n - 1);
      ImcuIs(s, n - 1, McuRowsIn(s, n - 1));
      RowsAfter(s, n - 1);
      BeforeIsRow(s, n - 1);
      AreaSum(RasterRow(s, n - 1, 0), McuRowsIn(s, n - 1), s.mcusPerRow);
      RowsAppend(s, 0, AllMcus(s, n - 1), RowsBefore(s, n - 1), ImcuMcus(s, n - 1, McuRowsIn(s, n - 1)));
    }
  }

  lemma {:induction false} BeforeIsRow(s: CoefScan, n: nat)
    requires ValidCoefScan(s) && n < s.totalImcuRows
    ensures RowsBefore(s, n) == RasterRow(s, n, 0)
  {
  }

  lemma {:induction false} AreaSum(a: nat, b: nat, w: nat)
    ensures Area(a, w) + Area(b, w) == Area(a + b, w)
  {
  }

  /** The MCUs of a scan, in raster order, each with its blocks; and how many there are. */
  lemma {:induction false} WholeScan(s: CoefScan)
    requires ValidCoefScan(s)
    ensures InRasterOrder(s, AllMcus(s, s.totalImcuRows))
    ensures |AllMcus(s, s.totalImcuRows)| == Area(McuRowCount(s), s.mcusPerRow)
  {
    hide AllMcus, ImageMcu;
    AllAre(s, s.totalImcuRows);
  }

  lemma {:induction false} RasterPrefix(s: CoefScan, a: seq<seq<Block>>, b: seq<seq<Block>>)
    requires ValidCoefScan(s) && a <= b && InRasterOrder(s, b)
    ensures InRasterOrder(s, a)
  {
    hide ImageMcu;
    assert forall j :: 0 <= j < |a| ==> a[j] == b[j];
  }

  datatype BufMode = PassThru | SaveAndPass | CrankDest

  ghost predicate WholeStored(s: CoefScan, whole: seq<seq<seq<Block>>>, n: nat)
    requires ValidCoefScan(s)
  {
    |whole| == |s.comps| && forall ci :: 0 <= ci < |whole| ==> RowsStored(s.comps[ci], n, whole[ci])
  }

  /** The calls in which the entropy encoder takes at least one MCU. */
  function Taking(accepts: seq<nat>): nat {
    if accepts == [] then 0 else Taking(accepts[..|accepts| - 1]) + if accepts[|accepts| - 1] > 0 then 1 else 0
  }

  /** Whatever the refusals, single-pass compression, the first pass of a
      multi-pass compression and each later pass from its buffer hand the
      encoder the same MCUs, each once, in raster order; and the first pass
      leaves the buffer as the later ones need it. The pass is complete as soon as
      as many calls as there are MCUs found the encoder ready for one. */
  method RunPass(s: CoefScan, mode: BufMode, whole: seq<seq<seq<Block>>>, accepts: seq<nat>) returns (c: CoefCtl)
    requires ValidCoefScan(s)
    requires mode == SaveAndPass ==> WholeStored(s, whole, 0)
    requires mode == CrankDest ==> WholeStored(s, whole, s.totalImcuRows)
    ensures c.sent <= AllMcus(s, s.totalImcuRows)
    // MCU j holds the blocks of its place in the image, and dummies beyond its edges
    ensures InRasterOrder(s, c.sent)
    ensures c.imcuRowNum == s.totalImcuRows ==> |c.sent| == McuRowCount(s) * s.mcusPerRow
    ensures Taking(accepts) >= |AllMcus(s, s.totalImcuRows)| ==> c.imcuRowNum == s.totalImcuRows
    ensures c.imcuRowNum == s.totalImcuRows ==> c.sent == AllMcus(s, s.totalImcuRows)
    ensures mode == SaveAndPass && c.imcuRowNum == s.totalImcuRows ==> WholeStored(s, c.whole, s.totalImcuRows)
  {
    hide RowsStored, ValidCoefScan, McuRowsIn, AllMcus, ImcuMcus, RowMcus, McusBefore, InRasterOrder;
    WholeScan(s);
    c := new CoefCtl(s, whole);
    var i := 0;
    while i < |accepts| && c.imcuRowNum < s.totalImcuRows
      invariant 0 <= i <= |accepts| && c.Valid() && c.s == s && fresh(c) && fresh(c.mcuBuffer)
      invariant |c.sent| >= Taking(accepts[..i])
      invariant mode == SaveAndPass ==> c.Stored(c.imcuRowNum)
      invariant mode == CrankDest ==> c.whole == whole
    {
      assert accepts[..i + 1][..i] == accepts[..i];
      var done;
      match mode {
        case PassThru =>
          done := c.CompressData(accepts[i]);
        case SaveAndPass =>
          done := c.CompressFirstPass(accepts[i]);
        case CrankDest =>
          AllStored(s, whole, c.imcuRowNum + 1);
          done := c.CompressOutput(accepts[i]);
      }
      i := i + 1;
    }
    if c.imcuRowNum == s.totalImcuRows {
      AtTheEnd(s);
    } else {
      assert accepts[..|accepts|] == accepts;
      MoreToSend(s, c.imcuRowNum, c.mcuVertOffset, c.mcuCtr);
    }
    RasterPrefix(s, c.sent, AllMcus(s, s.totalImcuRows));
  }

  /** Before the end some MCU is still to be sent. */
  lemma {:induction false} MoreToSend(s: CoefScan, im: nat, yoffset: nat, col: nat)
    requires ValidCoefScan(s) && im < s.totalImcuRows && yoffset < McuRowsIn(s, im) && col < s.mcusPerRow
    ensures McusBefore(s, im, yoffset, col) <= AllMcus(s, s.totalImcuRows)
    ensures |McusBefore(s, im, yoffset, col)| < |AllMcus(s, s.totalImcuRows)|
  {
    hide ValidCoefScan, Mcu, McuRowsIn;
    RowMcusMono(s, im, yoffset, col, s.mcusPerRow);
    ImcuMcusMono(s, im, yoffset + 1, McuRowsIn(s, im));
    AllMcusMono(s, im + 1, s.totalImcuRows);
    var a, b, c, d := AllMcus(s, im), ImcuMcus(s, im, yoffset), RowMcus(s, im, yoffset, col), RowMcus(s, im, yoffset, s.mcusPerRow);
    var e := ImcuMcus(s, im, McuRowsIn(s, im));
    PrefixChain(a, b, c, d, e, AllMcus(s, s.totalImcuRows));
  }

  lemma {:induction false} PrefixChain<T>(a: seq<T>, b: seq<T>, c: seq<T>, d: seq<T>, e: seq<T>, f: seq<T>)
    requires c < d && b + d <= e && a + e <= f
    ensures a + b + c <= f && |a + b + c| < |f|
  {
    assert c == d[..|c|];
    assert (b + d)[..|b + c|] == b + c;
    assert (a + e)[..|a + b + c|] == a + b + c;
  }

  lemma {:induction false} RowMcusMono(s: CoefScan, im: nat, yoffset: nat, m: nat, n: nat)
    requires ValidCoefScan(s) && m < n
    ensures RowMcus(s, im, yoffset, m) < RowMcus(s, im, yoffset, n)
    decreases n
  {
    hide Mcu, ValidCoefScan;
    if m < n - 1 {
      RowMcusMono(s, im, yoffset, m, n - 1);
    }
  }

  lemma {:induction false} ImcuMcusMono(s: CoefScan, im: nat, m: nat, n: nat)
    requires ValidCoefScan(s) && m <= n
    ensures ImcuMcus(s, im, m) <= ImcuMcus(s, im, n)
    decreases n
  {
    hide RowMcus, ValidCoefScan;
    if m < n {
      ImcuMcusMono(s, im, m, n - 1);
    }
  }

  lemma {:induction false} AllMcusMono(s: CoefScan, m: nat, n: nat)
    requires ValidCoefScan(s) && m <= n
    ensures AllMcus(s, m) <= AllMcus(s, n)
    decreases n
  {
    hide ImcuMcus, ValidCoefScan;
    if m < n {
      AllMcusMono(s, m, n - 1);
    }
  }

  lemma {:induction false} AllStored(s: CoefScan, whole: seq<seq<seq<Block>>>, n: nat)
    requires ValidCoefScan(s) && WholeStored(s, whole, s.totalImcuRows) && n <= s.totalImcuRows
    ensures WholeStored(s, whole, n)
  {
    forall ci | 0 <= ci < |whole|
      ensures RowsStored(s.comps[ci], n, whole[ci])
    {
      MulLe(n, s.totalImcuRows, s.comps[ci].v);
    }
  }

  lemma {:induction false} AtTheEnd(s: CoefScan)
    requires ValidCoefScan(s)
    ensures McusBefore(s, s.totalImcuRows, 0, 0) == AllMcus(s, s.totalImcuRows)
  {
    assert AllMcus(s, s.totalImcuRows) + [] + [] == AllMcus(s, s.totalImcuRows);
  }
}
