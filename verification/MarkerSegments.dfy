/** Header segments of a JPEG file as bytes (section B.2 of ITU-T T.81), and the
    parameters a decoder takes from them (the parsing routines of jdmarker.c). */
module MarkerSegments {
  import opened JpegLimits
  import opened HuffTable
  import opened Stuffing

  const M_SOF0 := 0xC0
  const M_SOF1 := 0xC1
  const M_SOF2 := 0xC2
  const M_SOF9 := 0xC9
  const M_SOF10 := 0xCA
  const M_DHT := 0xC4
  const M_DAC := 0xCC
  const M_RST0 := 0xD0
  const M_RST7 := 0xD7
  const M_SOI := 0xD8
  const M_EOI := 0xD9
  const M_SOS := 0xDA
  const M_DQT := 0xDB
  const M_DNL := 0xDC
  const M_DRI := 0xDD
  const M_APP0 := 0xE0
  const M_APP15 := 0xEF
  const M_COM := 0xFE
  const M_TEM := 0x01

  type UInt16 = x: int | 0 <= x < 65536
  type Nibble = x: int | 0 <= x < 16

  datatype FrameComp = FrameComp(id: UInt8, h: Nibble, v: Nibble, tq: UInt8)
  datatype Frame = NoFrame | Frame(progressive: bool, arith: bool, precision: UInt8, height: UInt16, width: UInt16, comps: seq<FrameComp>)
  datatype ScanComp = ScanComp(id: UInt8, td: Nibble, ta: Nibble)
  datatype ScanHeader = NoScan | ScanHeader(comps: seq<ScanComp>, Ss: UInt8, Se: UInt8, Ah: Nibble, Al: Nibble)

  /** What header segments set in the decoder. */
  datatype Cinfo = Cinfo(quant: map<nat, seq<UInt16>>, dc: map<nat, HuffTbl>, ac: map<nat, HuffTbl>,
                         restart: UInt16, soi: bool, frame: Frame, scan: ScanHeader)

  const Empty: Cinfo := Cinfo(map[], map[], map[], 0, false, NoFrame, NoScan)

  datatype Parsed = Done(pos: nat, ci: Cinfo) | Suspended | Bad

  /** The zigzag-to-natural table covers 64 entries and 16 safe extras. */
  predicate Usable(order: seq<nat>) {
    |order| == DCTSIZE2 + 16 && forall k :: 0 <= k < |order| ==> order[k] < DCTSIZE2
  }

  function Two(data: seq<UInt8>, pos: nat): UInt16
    requires pos + 2 <= |data|
  {
    (data[pos] as int) * 256 + data[pos + 1]
  }

  // ----- get_dri, get_sof, get_sos, skip_variable

  function ParseDri(data: seq<UInt8>, pos: nat, ci: Cinfo): (r: Parsed)
    ensures r.Done? ==> pos <= r.pos <= |data|
  {
    if pos + 2 > |data| then Suspended
    else if Two(data, pos) != 4 then Bad
    else if pos + 4 > |data| then Suspended
    else Done(pos + 4, ci.(restart := Two(data, pos + 2)))
  }

  function FrameComps(data: seq<UInt8>, pos: nat, n: nat): (cs: seq<FrameComp>)
    requires pos + 3 * n <= |data|
    ensures |cs| == n
  {
    if n == 0 then [] else
    FrameComps(data, pos, n - 1) + [FrameCompAt(data, pos + 3 * (n - 1))]
  }

  function FrameCompAt(data: seq<UInt8>, p: nat): FrameComp
    requires p + 3 <= |data|
  {
    FrameComp(data[p], data[p + 1] / 16, data[p + 1] % 16, data[p + 2])
  }

  function ParseSof(data: seq<UInt8>, pos: nat, progressive: bool, arith: bool, ci: Cinfo): (r: Parsed)
    ensures r.Done? ==> pos <= r.pos <= |data|
  {
    if pos + 8 > |data| then Suspended else
    var length, height, width, n: int := Two(data, pos), Two(data, pos + 3), Two(data, pos + 5), data[pos + 7];
    if ci.frame != NoFrame || height == 0 || width == 0 || n == 0 || length as int - 8 != 3 * n then Bad
    else if pos + 8 + 3 * n > |data| then Suspended
    else Done(pos + 8 + 3 * n, ci.(frame := Frame(progressive, arith, data[pos + 2], height, width, FrameComps(data, pos + 8, n))))
  }

  predicate KnownId(f: Frame, id: UInt8) {
    f.Frame? && exists k :: 0 <= k < |f.comps| && f.comps[k].id == id
  }

  datatype CompsParsed = CompsDone(comps: seq<ScanComp>) | CompsSuspended | CompsBad

  /** The component specifications of a scan header, from the i-th on. */
  function ScanComps(data: seq<UInt8>, pos: nat, i: nat, n: nat, f: Frame, got: seq<ScanComp>): CompsParsed
    decreases n - i
  {
    if i >= n then CompsDone(got)
    else if pos + 2 > |data| then CompsSuspended
    else if !KnownId(f, data[pos]) then CompsBad
    else ScanComps(data, pos + 2, i + 1, n, f, got + [ScanComp(data[pos], data[pos + 1] / 16, data[pos + 1] % 16)])
  }

  function ParseSos(data: seq<UInt8>, pos: nat, ci: Cinfo): (r: Parsed)
    ensures r.Done? ==> pos <= r.pos <= |data|
  {
    if ci.frame == NoFrame then Bad
    else if pos + 3 > |data| then Suspended else
    var n := data[pos + 2];
    if Two(data, pos) != 2 * n + 6 || n < 1 || n > MAX_COMPS_IN_SCAN then Bad else
    match ScanComps(data, pos + 3, 0, n, ci.frame, [])
    case CompsSuspended => Suspended
    case CompsBad => Bad
    case CompsDone(comps) =>
      var p := pos + 3 + 2 * n;
      if p + 3 > |data| then Suspended
      else Done(p + 3, ci.(scan := ScanHeader(comps, data[p], data[p + 1], data[p + 2] / 16, data[p + 2] % 16)))
  }

  /** Segments that are skipped by their length. */
  function ParseSkip(data: seq<UInt8>, pos: nat, ci: Cinfo): (r: Parsed)
    ensures r.Done? ==> pos <= r.pos <= |data|
  {
    if pos + 2 > |data| then Suspended
    else if Two(data, pos) < 2 then Done(pos + 2, ci)
    else if pos + Two(data, pos) > |data| then Suspended
    else Done(pos + Two(data, pos), ci)
  }

  // ----- get_dht

  /** The table as stored; entries past the last symbol are taken as zero. */
  function StoredTable(counts: seq<UInt8>, vals: seq<UInt8>): (t: HuffTbl)
    requires |counts| == MAXBITS && |vals| <= 256
    ensures Shaped(t)
  {
    HuffTbl([0] + counts, vals + seq(256 - |vals|, i => 0))
  }

  /** The tables of a DHT segment with length bytes to go. */
  function ParseTables(data: seq<UInt8>, pos: nat, length: int, ci: Cinfo): (r: Parsed)
    requires pos <= |data|
    ensures r.Done? ==> pos <= r.pos <= |data|
    decreases length
  {
    if length <= 16 then (if length != 0 then Bad else Done(pos, ci))
    else if pos + 17 > |data| then Suspended else
    var index, counts := data[pos], data[pos + 1..pos + 17];
    var n := Upto([0] + counts, MAXBITS);
    if n > 256 || n > length - 17 then Bad
    else if pos + 17 + n > |data| then Suspended else
    var t := StoredTable(counts, data[pos + 17..pos + 17 + n]);
    var slot := if index / 16 % 2 == 1 then index - 16 else index;
    if slot >= NUM_HUFF_TBLS then Bad
    else ParseTables(data, pos + 17 + n, length - 17 - n,
                     if index / 16 % 2 == 1 then ci.(ac := ci.ac[slot := t]) else ci.(dc := ci.dc[slot := t]))
  }

  function ParseDht(data: seq<UInt8>, pos: nat, ci: Cinfo): (r: Parsed)
    ensures r.Done? ==> pos <= r.pos <= |data|
  {
    if pos + 2 > |data| then Suspended else ParseTables(data, pos + 2, Two(data, pos) - 2, ci)
  }

  // ----- get_dqt

  /** A table's entry at zigzag position k. */
  function QuantEntry(data: seq<UInt8>, pos: nat, wide: bool, k: nat): UInt16
    requires pos + (if wide then 2 * k + 2 else k + 1) <= |data|
  {
    if wide then Two(data, pos + 2 * k) else data[pos + k]
  }

  /** The first n entries put in natural order. */
  function QuantFill(data: seq<UInt8>, pos: nat, wide: bool, order: seq<nat>, n: nat, q: seq<UInt16>): (r: seq<UInt16>)
    requires Usable(order) && n <= DCTSIZE2 == |q|
    requires pos + (if wide then 2 * n else n) <= |data|
    ensures |r| == DCTSIZE2
  {
    if n == 0 then q else
    QuantFill(data, pos, wide, order, n - 1, q)[order[n - 1] := QuantEntry(data, pos, wide, n - 1)]
  }

  function ZeroQuant(): (q: seq<UInt16>)
    ensures |q| == DCTSIZE2
  {
    seq(DCTSIZE2, i => 0)
  }

  function ParseQuants(data: seq<UInt8>, pos: nat, length: int, order: seq<nat>, ci: Cinfo): (r: Parsed)
    requires Usable(order) && pos <= |data|
    ensures r.Done? ==> pos <= r.pos <= |data|
    decreases length
  {
    if length <= 0 then (if length != 0 then Bad else Done(pos, ci))
    else if pos + 1 > |data| then Suspended else
    var wide, slot := data[pos] / 16 != 0, data[pos] % 16;
    var size := if wide then 2 * DCTSIZE2 else DCTSIZE2;
    if slot >= NUM_QUANT_TBLS then Bad
    else if pos + 1 + size > |data| then Suspended else
    var q := QuantFill(data, pos + 1, wide, order, DCTSIZE2, ZeroQuant());
    ParseQuants(data, pos + 1 + size, length - 1 - size, order, ci.(quant := ci.quant[slot := q]))
  }

  function ParseDqt(data: seq<UInt8>, pos: nat, order: seq<nat>, ci: Cinfo): (r: Parsed)
    requires Usable(order) && pos <= |data|
    ensures r.Done? ==> pos <= r.pos <= |data|
  {
    if pos + 2 > |data| then Suspended else ParseQuants(data, pos + 2, Two(data, pos) - 2, order, ci)
  }

  // ----- read_markers

  /** The parameters after marker m, whose segment starts at pos. */
  function ParseSegment(m: UInt8, data: seq<UInt8>, pos: nat, order: seq<nat>, ci: Cinfo): (r: Parsed)
    requires Usable(order) && pos <= |data|
    ensures r.Done? ==> pos <= r.pos <= |data|
  {
    if m == M_SOI then (if ci.soi then Bad else Done(pos, ci.(soi := true, restart := 0)))
    else if m == M_SOF0 || m == M_SOF1 then ParseSof(data, pos, false, false, ci)
    else if m == M_SOF2 then ParseSof(data, pos, true, false, ci)
    else if m == M_SOF9 then ParseSof(data, pos, false, true, ci)
    else if m == M_SOF10 then ParseSof(data, pos, true, true, ci)
    else if m == M_DHT then ParseDht(data, pos, ci)
    else if m == M_DQT then ParseDqt(data, pos, order, ci)
    else if m == M_DRI then ParseDri(data, pos, ci)
    else if m == M_SOS then ParseSos(data, pos, ci)
    else if M_APP0 <= m <= M_APP15 || m == M_COM || m == M_DNL || m == M_DAC then ParseSkip(data, pos, ci)
    else if M_RST0 <= m <= M_RST7 || m == M_TEM then Done(pos, ci)
    else Bad
  }

  datatype MarkersRead = ReachedSos(pos: nat, ci: Cinfo) | ReachedEoi(pos: nat, ci: Cinfo) | NeedMore | Failed

  /** All markers from pos on, up to SOS or EOI. The first must be SOI, with nothing before it. */
  function ReadMarkers(data: seq<UInt8>, pos: nat, order: seq<nat>, ci: Cinfo): MarkersRead
    requires Usable(order) && pos <= |data|
    decreases |data| - pos, 0
  {
    if !ci.soi then
      if pos + 2 > |data| then NeedMore
      else if data[pos] != 0xFF || data[pos + 1] != M_SOI then Failed
      else AfterMarker(M_SOI, data, pos + 2, order, ci)
    else if !Closed(data[pos..]) then NeedMore else
    var (m, rest) := AfterSegment(data[pos..]);
    AfterMarker(m, data, |data| - |rest|, order, ci)
  }

  /** The same when marker m has just been read. */
  function AfterMarker(m: UInt8, data: seq<UInt8>, pos: nat, order: seq<nat>, ci: Cinfo): MarkersRead
    requires Usable(order) && pos <= |data|
    decreases |data| - pos, 1
  {
    if m == M_EOI then ReachedEoi(pos, ci) else
    match ParseSegment(m, data, pos, order, ci)
    case Suspended => NeedMore
    case Bad => Failed
    case Done(q, ci') => if m == M_SOS then ReachedSos(q, ci') else ReadMarkers(data, q, order, ci')
  }
}
