/** brotli (brotli.go): its default descriptor and its construction. Both
    of its stream objects are pooled. The numeric levels are those of the
    andybalholm/brotli package. */
module Brotli {
  import opened Algo

  const BrotliBestSpeed := 0
  const BrotliBestCompression := 11
  const BrotliDefaultCompression := 6

  /** Enabled, highest default priority (400), the library's default level. */
  const Default := AlgorithmConfig(true, BrotliDefaultCompression, 400)

  /** newAlgorithmBrotli: the default descriptor, an empty compressor pool
      and an empty decompressor pool. */
  method NewAlgorithm() returns (a: Algorithm)
    ensures fresh(a) && a.Valid() && a.token == BROTLI && a.cfg == Default
    ensures !a.compressorPool.eager
    ensures a.compressorPool.idle == [] && a.decompressorPool != null && a.decompressorPool.idle == []
  {
    a := new Algorithm(BROTLI, Default, false, true);
  }
}
