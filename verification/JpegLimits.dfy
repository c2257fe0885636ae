/** Sizes shared by all parts of the codec (jpeglib.h, jmorecfg.h). */
module JpegLimits {
  const DCTSIZE := 8             // the basic DCT block is 8x8 samples
  const DCTSIZE2 := 64           // coefficients of a block
  const NUM_QUANT_TBLS := 4
  const NUM_HUFF_TBLS := 4       // table slots of each class
  const MAX_COMPS_IN_SCAN := 4
  const MAX_COMPONENTS := 10     // of an image
  const NSYMS := 257             // counters of a table: symbols 0..255 and the pseudo-symbol
  const PSEUDO := 256
}
