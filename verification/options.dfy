/** The middleware's options (options.go): the per-middleware settings in
    `compressOptions`, and the option constructors. The `With*` options that
    concern an algorithm change that algorithm's shared descriptor in the
    registry, not the options. An option is applied as soon as it is made,
    so each one is modelled as the change it makes. */
module Options {
  import opened Common
  import opened Algo
  import opened Registry

  /** The default request size threshold and decode depth. */
  const DefaultMinCompressBytes := 512
  const DefaultMaxDecodeSteps := 1

  /** compressOptions. `excludeFunc` sees the request's headers (the gin
      context is not modelled) and may be nil (`None`). */
  class CompressOptions {
    var excludeFunc: Option<Headers -> bool>
    var minCompressBytes: int
    var maxDecodeSteps: int
    var skipDecompressRequest: bool

    /** At least one layer is decoded when decoding is on. */
    ghost predicate Valid()
      reads this
    {
      maxDecodeSteps >= 1
    }

    /** newCompressOptions: threshold 512, one decode step, request bodies
        decoded, and an exclude function that never excludes. */
    constructor ()
      ensures excludeFunc.Some? && forall h :: !excludeFunc.value(h)
      ensures minCompressBytes == DefaultMinCompressBytes
      ensures maxDecodeSteps == DefaultMaxDecodeSteps
      ensures !skipDecompressRequest
      ensures Valid()
    {
      excludeFunc := Some(h => false);
      minCompressBytes := DefaultMinCompressBytes;
      maxDecodeSteps := DefaultMaxDecodeSteps;
      skipDecompressRequest := false;
    }

    /** WithExcludeFunc: set the exclude function (possibly nil). */
    method WithExcludeFunc(f: Option<Headers -> bool>)
      modifies this`excludeFunc
      ensures excludeFunc == f
    {
      excludeFunc := f;
    }

    /** WithMinCompressBytes: set the threshold; a value <= 0 makes the
        first write swap to the compressor. */
    method WithMinCompressBytes(numBytes: int)
      modifies this`minCompressBytes
      ensures minCompressBytes == numBytes
    {
      minCompressBytes := numBytes;
    }

    /** WithMaxDecodeSteps: a step count below one panics (when the option
        is made, before anything changes); otherwise it is stored. */
    method WithMaxDecodeSteps(steps: int) returns (st: Status)
      modifies this`maxDecodeSteps
      ensures steps < 1 ==> st.Panic? && maxDecodeSteps == old(maxDecodeSteps)
      ensures steps >= 1 ==> st == Ok && maxDecodeSteps == steps
      ensures old(Valid()) ==> Valid()
    {
      if steps < 1 {
        return Panic("steps < 1, if you want to disable decompression of the request body, see WithDecompressBody");
      }
      maxDecodeSteps := steps;
      st := Ok;
    }

    /** WithDecompressBody: request bodies are decoded exactly when
        `decompress` is true. */
    method WithDecompressBody(decompress: bool)
      modifies this`skipDecompressRequest
      ensures skipDecompressRequest == !decompress
    {
      skipDecompressRequest := !decompress;
    }
  }

  /** The message of the panic a lookup of an unknown token leads to: the
      map yields a nil interface and calling `getConfig` on it fails. */
  const NilDereference := "invalid memory address or nil pointer dereference"

  /** WithAlgo: enable or disable `algo` in the shared registry. Only that
      descriptor's `enable` changes; an unknown token panics. */
  method WithAlgo(reg: Registry, algo: string, enable: bool) returns (st: Status)
    requires reg.Valid()
    modifies reg.Algorithms().Values
    ensures reg.Valid()
    ensures algo !in Tokens ==> st == Panic(NilDereference)
    ensures algo in Tokens ==> st == Ok
    ensures forall t :: t in Tokens ==>
      reg.Algorithms()[t].cfg == (if t == algo then old(reg.Algorithms()[t].cfg).(enable := enable) else old(reg.Algorithms()[t].cfg))
  {
    var algorithms := reg.Algorithms();
    if algo !in algorithms {
      return Panic(NilDereference);
    }
    var a := algorithms[algo];
    a.cfg := a.cfg.(enable := enable);
    st := Ok;
  }

  /** WithCompressLevel: set the level `algo`'s new compressors are made
      with. Only that descriptor's `compressLevel` changes; an unknown
      token panics. The level is not checked against the algorithm. */
  method WithCompressLevel(reg: Registry, algo: string, level: int) returns (st: Status)
    requires reg.Valid()
    modifies reg.Algorithms().Values
    ensures reg.Valid()
    ensures algo !in Tokens ==> st == Panic(NilDereference)
    ensures algo in Tokens ==> st == Ok
    ensures forall t :: t in Tokens ==>
      reg.Algorithms()[t].cfg == (if t == algo then old(reg.Algorithms()[t].cfg).(compressLevel := level) else old(reg.Algorithms()[t].cfg))
  {
    var algorithms := reg.Algorithms();
    if algo !in algorithms {
      return Panic(NilDereference);
    }
    var a := algorithms[algo];
    a.cfg := a.cfg.(compressLevel := level);
    st := Ok;
  }

  /** WithPriority: set `algo`'s rank among accepted algorithms of equal
      weight. Only that descriptor's `priority` changes; an unknown token
      panics. */
  method WithPriority(reg: Registry, algo: string, priority: int) returns (st: Status)
    requires reg.Valid()
    modifies reg.Algorithms().Values
    ensures reg.Valid()
    ensures algo !in Tokens ==> st == Panic(NilDereference)
    ensures algo in Tokens ==> st == Ok
    ensures forall t :: t in Tokens ==>
      reg.Algorithms()[t].cfg == (if t == algo then old(reg.Algorithms()[t].cfg).(priority := priority) else old(reg.Algorithms()[t].cfg))
  {
    var algorithms := reg.Algorithms();
    if algo !in algorithms {
      return Panic(NilDereference);
    }
    var a := algorithms[algo];
    a.cfg := a.cfg.(priority := priority);
    st := Ok;
  }
}
