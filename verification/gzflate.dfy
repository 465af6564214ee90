/** The flate levels shared by gzip and deflate (options.go), as defined by
    the klauspost/compress flate package. */
module GzFlate {
  const GzFlateDefault := -1
  const GzFlateNoCompression := 0
  const GzFlateBestSpeed := 1
  const GzFlateBestCompression := 9
  const GzFlateConstantCompression := -2
  const GzFlateHuffmanOnly := -2
}
