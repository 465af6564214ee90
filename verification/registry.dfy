/** The registry of supported algorithms (the `algorithms` map of algo.go):
    a fixed map from the four encoding tokens to their algorithm objects,
    whose descriptors are shared and changed in place by configuration. */
module Registry {
  import opened Common
  import opened Codec
  import opened Algo
  import Zstd
  import Brotli
  import Gzip
  import Deflate

  /** The descriptor each algorithm starts with. */
  function DefaultConfig(token: string): AlgorithmConfig
    requires token in Tokens
  {
    if token == ZSTD then Zstd.Default
    else if token == GZIP then Gzip.Default
    else if token == BROTLI then Brotli.Default
    else Deflate.Default
  }

  /** Under the defaults every algorithm is enabled and the priorities are
      distinct and ordered zstd < deflate < gzip < br, so br wins every tie
      of weights. */
  lemma DefaultPriorities()
    ensures forall t :: t in Tokens ==> DefaultConfig(t).enable
    ensures DefaultConfig(ZSTD).priority < DefaultConfig(DEFLATE).priority
    ensures DefaultConfig(DEFLATE).priority < DefaultConfig(GZIP).priority
    ensures DefaultConfig(GZIP).priority < DefaultConfig(BROTLI).priority
    ensures forall t, u :: t in Tokens && u in Tokens && t != u ==>
      DefaultConfig(t).priority != DefaultConfig(u).priority
  {
  }

  class Registry {
    const zstd: Algorithm
    const gzip: Algorithm
    const brotli: Algorithm
    const deflate: Algorithm

    /** The `algorithms` map: each token bound to its algorithm. */
    function Algorithms(): (m: map<string, Algorithm>)
      ensures m.Keys == Tokens
    {
      map[ZSTD := zstd, GZIP := gzip, BROTLI := brotli, DEFLATE := deflate]
    }

    /** The pools of all algorithms (null where there is none). */
    ghost function Pools(): set<object?>
    {
      { zstd.compressorPool, zstd.decompressorPool, gzip.compressorPool, gzip.decompressorPool,
        brotli.compressorPool, brotli.decompressorPool, deflate.compressorPool, deflate.decompressorPool }
    }

    /** Everything the registry's invariant depends on. */
    ghost function Repr(): set<object>
      reads Pools()
    {
      zstd.PoolFootprint() + gzip.PoolFootprint() + brotli.PoolFootprint() + deflate.PoolFootprint()
    }

    /** Each token is bound to the algorithm of that name, whose pools are
        in order; zstd and br pool their decompressors, gzip and deflate do
        not; the gzip and zlib compressors are the eager ones. */
    ghost predicate Valid()
      reads Pools(), Repr()
    {
      && zstd.token == ZSTD && zstd.Valid() && zstd.decompressorPool != null && !zstd.compressorPool.eager
      && gzip.token == GZIP && gzip.Valid() && gzip.decompressorPool == null && gzip.compressorPool.eager
      && brotli.token == BROTLI && brotli.Valid() && brotli.decompressorPool != null && !brotli.compressorPool.eager
      && deflate.token == DEFLATE && deflate.Valid() && deflate.decompressorPool == null && deflate.compressorPool.eager
    }

    /** The decompressor pools: zstd's and br's. */
    ghost function DecoderPools(): (ps: set<DecoderPool>)
      requires Valid()
      reads Pools(), Repr()
      ensures ps == {zstd.decompressorPool, brotli.decompressorPool}
    {
      {zstd.decompressorPool as DecoderPool, brotli.decompressorPool as DecoderPool}
    }

    /** The pools of different algorithms are different objects, and no
        idle compressor or decompressor is idle in the pool of another
        algorithm, since every idle instance carries its pool's token. */
    lemma PoolsApart()
      requires Valid()
      ensures forall t, u :: t in Tokens && u in Tokens && t != u ==>
        var a, b := Algorithms()[t], Algorithms()[u];
        && a.compressorPool != b.compressorPool
        && (forall e :: e in a.compressorPool.idle ==> e !in b.compressorPool.idle)
      ensures zstd.decompressorPool != brotli.decompressorPool
      ensures forall d :: d in zstd.decompressorPool.idle ==> d !in brotli.decompressorPool.idle
    {
      forall t, u | t in Tokens && u in Tokens && t != u
        ensures forall e :: e in Algorithms()[t].compressorPool.idle ==> e !in Algorithms()[u].compressorPool.idle
      {
        var a, b := Algorithms()[t], Algorithms()[u];
        forall e | e in a.compressorPool.idle
          ensures e !in b.compressorPool.idle
        {
          assert e.token == t;
        }
      }
      forall d | d in zstd.decompressorPool.idle
        ensures d !in brotli.decompressorPool.idle
      {
        assert d.token == ZSTD;
      }
    }

    /** The compressor pools of all algorithms. */
    ghost function EncoderPools(): set<EncoderPool>
    {
      {zstd.compressorPool, gzip.compressorPool, brotli.compressorPool, deflate.compressorPool}
    }

    /** What serving responses may change: the compressor pools and the
        compressors idle in them. */
    ghost function Encoders(): set<object>
      reads EncoderPools()
    {
      var idle: set<object> := set p, e | p in EncoderPools() && e in p.idle :: e;
      EncoderPools() + idle
    }

    /** Each algorithm is in order, and its compressor pool and the
        compressors idle in it are among what serving responses may
        change. */
    lemma Covers(t: string)
      requires t in Tokens
      requires Valid()
      ensures Algorithms()[t].Valid() && Algorithms()[t].token == t
      ensures Algorithms()[t].compressorPool in Encoders()
      ensures forall e :: e in Algorithms()[t].compressorPool.idle ==> e in Encoders()
    {
      assert Algorithms()[t].compressorPool in EncoderPools();
    }

    /** Every algorithm holds its default descriptor. */
    predicate AtDefaults()
      reads zstd, gzip, brotli, deflate
    {
      && zstd.cfg == Zstd.Default && gzip.cfg == Gzip.Default
      && brotli.cfg == Brotli.Default && deflate.cfg == Deflate.Default
    }

    /** The registry as the program starts: each algorithm with its
        default descriptor and empty pools. */
    constructor ()
      ensures Valid() && AtDefaults()
      ensures zstd.compressorPool.idle == [] && gzip.compressorPool.idle == []
      ensures brotli.compressorPool.idle == [] && deflate.compressorPool.idle == []
    {
      var z := Zstd.NewAlgorithm();
      var g := Gzip.NewAlgorithm();
      var b := Brotli.NewAlgorithm();
      var d := Deflate.NewAlgorithm();
      zstd, gzip, brotli, deflate := z, g, b, d;
    }

    /** The tokens whose descriptor is currently enabled. */
    function Enabled(): (r: set<string>)
      reads Algorithms().Values
      ensures r <= Tokens
      ensures forall t :: t in Tokens ==> (t in r <==> Algorithms()[t].cfg.enable)
    {
      set t | t in Algorithms() && Algorithms()[t].cfg.enable
    }

    /** The priority of each enabled token. */
    function EnabledPriorities(): (r: map<string, int>)
      reads Algorithms().Values
      ensures r.Keys == Enabled()
      ensures forall t :: t in r ==> r[t] == Algorithms()[t].cfg.priority
    {
      map t | t in Enabled() :: Algorithms()[t].cfg.priority
    }

    /** getEnabledAlgorithms: a fresh map holding exactly the entries
        whose descriptor is enabled; the registry itself is not changed. */
    method GetEnabledAlgorithms() returns (r: map<string, Algorithm>)
      ensures r.Keys == Enabled()
      ensures forall t :: t in r ==> r[t] == Algorithms()[t]
    {
      var algorithms := Algorithms();
      r := map[];
      var keys := algorithms.Keys;
      while keys != {}
        invariant keys <= algorithms.Keys
        invariant r.Keys == set t | t in algorithms.Keys - keys && algorithms[t].cfg.enable
        invariant forall t :: t in r ==> t in algorithms && r[t] == algorithms[t]
        decreases keys
      {
        var k :| k in keys;
        if algorithms[k].cfg.enable {
          r := r[k := algorithms[k]];
        }
        keys := keys - {k};
      }
    }
  }
}
