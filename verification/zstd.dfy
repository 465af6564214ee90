/** zstd (zstd.go): its default descriptor and its construction. Both of
    its stream objects are pooled. The numeric levels are those of the
    klauspost/compress zstd package. */
module Zstd {
  import opened Algo

  const ZstdSpeedFastest := 1
  const ZstdSpeedDefault := 2
  const ZstdSpeedBetterCompression := 3
  const ZstdSpeedBestCompression := 4

  /** Enabled, lowest default priority (100), the library's default level. */
  const Default := AlgorithmConfig(true, ZstdSpeedDefault, 100)

  /** newAlgorithmZstd: the default descriptor, an empty compressor pool
      and an empty decompressor pool. */
  method NewAlgorithm() returns (a: Algorithm)
    ensures fresh(a) && a.Valid() && a.token == ZSTD && a.cfg == Default
    ensures !a.compressorPool.eager
    ensures a.compressorPool.idle == [] && a.decompressorPool != null && a.decompressorPool.idle == []
  {
    a := new Algorithm(ZSTD, Default, false, true);
  }
}
