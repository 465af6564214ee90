/** deflate (deflate.go, zlib framing): its default descriptor and its
    construction. Only the compressor is pooled; each request gets a fresh
    reader. */
module Deflate {
  import opened Algo
  import opened GzFlate

  /** Enabled, priority 200, the flate default level. */
  const Default := AlgorithmConfig(true, GzFlateDefault, 200)

  /** newAlgorithmDeflate: the default descriptor and an empty compressor
      pool; there is no decompressor pool. */
  method NewAlgorithm() returns (a: Algorithm)
    ensures fresh(a) && a.Valid() && a.token == DEFLATE && a.cfg == Default
    ensures a.compressorPool.eager
    ensures a.compressorPool.idle == [] && a.decompressorPool == null
  {
    a := new Algorithm(DEFLATE, Default, true, false);
  }
}
