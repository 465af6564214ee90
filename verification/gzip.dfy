/** gzip (gzip.go): its default descriptor and its construction. Only the
    compressor is pooled; each request gets a fresh reader. */
module Gzip {
  import opened Algo
  import opened GzFlate

  /** Enabled, priority 300, the flate default level. */
  const Default := AlgorithmConfig(true, GzFlateDefault, 300)

  /** newAlgorithmGzip: the default descriptor and an empty compressor
      pool; there is no decompressor pool. */
  method NewAlgorithm() returns (a: Algorithm)
    ensures fresh(a) && a.Valid() && a.token == GZIP && a.cfg == Default
    ensures a.compressorPool.eager
    ensures a.compressorPool.idle == [] && a.decompressorPool == null
  {
    a := new Algorithm(GZIP, Default, true, false);
  }
}
