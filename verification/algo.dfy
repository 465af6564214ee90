/** Algorithms, their descriptors, and the pooled wrappers that hand out a
    reusable compressor or decompressor behind a plain write/read + close
    interface (algo.go). */
module Algo {
  import opened Common
  import opened Codec

  const DEFLATE := "deflate"
  const GZIP := "gzip"
  const ZSTD := "zstd"
  const BROTLI := "br"

  /** The supported encoding tokens; the set is fixed. */
  const Tokens: set<string> := {ZSTD, GZIP, BROTLI, DEFLATE}

  /** algorithmConfig: whether the algorithm may be used, the level passed
      to its encoder, and its rank among accepted algorithms of equal
      weight (higher wins). */
  datatype AlgorithmConfig = AlgorithmConfig(enable: bool, compressLevel: int, priority: int)

  // -----------------------------------------------------------------------
  // wrappedWriter

  /** A pooled compressor handed to one response. While open (`!c`) the
      wrapper owns its compressor: the pool has it out on loan. */
  class WrappedWriter {
    const w: Encoder
    const p: EncoderPool
    var c: bool

    constructor (w: Encoder, p: EncoderPool)
      ensures this.w == w && this.p == p && !c
    {
      this.w := w;
      this.p := p;
      c := false;
    }

    ghost predicate Valid()
      reads this, p
    {
      !c ==> w in p.lent && w.token == p.token && w.eager == p.eager
    }

    /** The response an open wrapper's compressor writes to, if any. */
    function Out(): set<Sink>
      reads this, w
    {
      if c then {} else w.Out()
    }

    /** Write: panics on a closed wrapper, otherwise forwards `b` unchanged
        to the compressor. */
    method Write(b: Bytes) returns (n: int, st: Status)
      modifies w`input, w`headed, Out()`body, Out()`size
      ensures c ==> st.Panic? && n == 0 && w.input == old(w.input) && w.headed == old(w.headed)
      ensures !c && !(w.eager && old(w.Broken())) ==> st == Ok && n == |b| && w.input == old(w.input) + b
      ensures !c && w.eager && old(w.Broken()) ==> st.Error? && n == 0 && w.input == old(w.input)
      ensures !c ==> w.headed == (old(w.headed) || w.eager)
      ensures !c && w.target.Net? ==> w.target.sink.body == old(w.target.sink.body)
      ensures !c && w.target.Net? ==>
        w.target.sink.size == if w.eager && !old(w.headed) then Started(old(w.target.sink.size)) else old(w.target.sink.size)
    {
      if c {
        return 0, Panic("attempted to write to a closed writer");
      }
      n, st := w.Write(b);
    }

    /** Close: panics on a closed wrapper. Otherwise it marks the wrapper
        closed, finalises the compressor while it is still bound to the
        response (so the result is the response's failure, if any), then
        rebinds it to `ioutil.Discard` and returns it to the pool. */
    method Close() returns (st: Status)
      requires Valid() && p.Valid()
      modifies this`c, w, p, Out()`body, Out()`size
      ensures c
      ensures old(c) ==> st.Panic? && p.idle == old(p.idle) && p.lent == old(p.lent)
      ensures old(c) ==> w.target == old(w.target) && w.input == old(w.input)
      ensures !old(c) ==> st == (if old(w.Broken()) then Error(old(w.target).sink.err.value) else Ok)
      ensures !old(c) ==> w.target == Discard && w.input == [] && w.streamed == old(w.input)
      ensures !old(c) && old(w.target).Net? ==>
        old(w.target).sink.body == old(w.target.sink.body) && old(w.target).sink.size == Started(old(w.target.sink.size))
      ensures !old(c) ==> p.idle == old(p.idle) + [w] && p.lent == old(p.lent) - {w}
      ensures p.Valid()
    {
      if c {
        return Panic("attempted to close a compressor that has already been closed");
      }
      c := true;
      st := w.Close();
      w.Reset(Discard);
      p.Put(w);
    }
  }

  // -----------------------------------------------------------------------
  // wrappedReader

  /** A pooled decompressor handed to one request. While open (`!c`) the
      wrapper owns its decompressor: the pool has it out on loan. */
  class WrappedReader {
    const r: Decoder
    const p: DecoderPool
    var c: bool

    constructor (r: Decoder, p: DecoderPool)
      ensures this.r == r && this.p == p && !c
    {
      this.r := r;
      this.p := p;
      c := false;
    }

    ghost predicate Valid()
      reads this, p
    {
      !c ==> r in p.lent && r.token == p.token
    }

    /** Read: panics on a closed wrapper, otherwise reads from the
        decompressor. */
    method Read(max: nat) returns (data: Bytes, st: Status)
      modifies r`pending
      ensures c ==> st.Panic? && data == [] && r.pending == old(r.pending)
      ensures !c && r.err.Some? ==> st == Error(r.err.value) && data == [] && r.pending == old(r.pending)
      ensures !c && r.err.None? ==> st == Ok && |data| <= max && old(r.pending) == data + r.pending
    {
      if c {
        return [], Panic("attempted to read from a closed reader");
      }
      data, st := r.Read(max);
    }

    /** Close is idempotent and never fails: the first call marks the
        wrapper closed, resets the decompressor to read from nothing and
        returns it to the pool; later calls do nothing. */
    method Close() returns (st: Status)
      requires Valid() && p.Valid()
      modifies this`c, r`source, r`pending, r`err, p
      ensures st == Ok && c && p.Valid()
      ensures old(c) ==> p.idle == old(p.idle) && p.lent == old(p.lent) && r.source == old(r.source)
      ensures !old(c) ==> r.source == NoSource && p.idle == old(p.idle) + [r] && p.lent == old(p.lent) - {r}
    {
      if c {
        return Ok;
      }
      c := true;
      r.Reset(NoSource);
      p.Put(r);
      st := Ok;
    }
  }

  // -----------------------------------------------------------------------
  // The io.ReadCloser a decompressing algorithm hands out

  /** What `getReader` returns: a pooled wrapper (zstd, br) or a plain,
      freshly made decompressor (gzip, deflate). */
  datatype ReadCloser = Wrapped(wr: WrappedReader) | Plain(d: Decoder)
  {
    /** The stream object the next layer reads from. */
    function Stream(): object
    {
      match this
      case Wrapped(wr) => wr
      case Plain(d) => d
    }

    /** The decompressor doing the work. */
    function Inner(): Decoder
    {
      match this
      case Wrapped(wr) => wr.r
      case Plain(d) => d
    }

    /** The objects a Read or Close of this layer may change. */
    ghost function Footprint(): set<object>
    {
      match this
      case Wrapped(wr) => {wr, wr.r, wr.p}
      case Plain(d) => {d}
    }

    /** The layer is not yet closed and, when pooled, its decompressor is
        still on loan from its pool. */
    ghost predicate Open()
      reads Footprint()
    {
      match this
      case Wrapped(wr) => !wr.c && wr.Valid()
      case Plain(d) => !d.closed
    }

    /** The result a Close of this layer gives in the current state. */
    function CloseResult(): Status
      reads Inner()
    {
      match this
      case Wrapped(wr) => Ok
      case Plain(d) => if d.err.Some? then Error(d.err.value) else Ok
    }

    /** The layer has been closed. */
    ghost predicate Closed()
      reads Stream()
    {
      match this
      case Wrapped(wr) => wr.c
      case Plain(d) => d.closed
    }
  }

  /** Close one layer: what `dc.Close()` does for either kind. */
  method CloseLayer(rc: ReadCloser) returns (st: Status)
    requires rc.Wrapped? ==> rc.wr.Valid() && rc.wr.p.Valid()
    modifies rc.Footprint()
    ensures st == old(rc.CloseResult()) && rc.Closed()
    ensures rc.Wrapped? ==> rc.wr.p.Valid()
    ensures rc.Wrapped? && !old(rc.wr.c) ==>
      && rc.wr.r.source == NoSource
      && rc.wr.p.idle == old(rc.wr.p.idle) + [rc.wr.r] && rc.wr.p.lent == old(rc.wr.p.lent) - {rc.wr.r}
    ensures rc.Wrapped? && old(rc.wr.c) ==> rc.wr.p.idle == old(rc.wr.p.idle) && rc.wr.p.lent == old(rc.wr.p.lent)
  {
    match rc
    case Wrapped(wr) => st := wr.Close();
    case Plain(d) => st := d.Close();
  }

  /** Read from one layer: what `dc.Read(b)` does for either kind. */
  method ReadLayer(rc: ReadCloser, max: nat) returns (data: Bytes, st: Status)
    modifies rc.Inner()`pending
    ensures rc.Wrapped? && rc.wr.c ==> st.Panic? && data == []
    ensures (rc.Plain? || !rc.wr.c) && rc.Inner().err.Some? ==> st.Error? && data == []
    ensures (rc.Plain? || !rc.wr.c) && rc.Inner().err.None? ==>
      st == Ok && |data| <= max && old(rc.Inner().pending) == data + rc.Inner().pending
    ensures rc.Wrapped? && rc.wr.c ==> rc.Inner().pending == old(rc.Inner().pending)
  {
    match rc
    case Wrapped(wr) => data, st := wr.Read(max);
    case Plain(d) => data, st := d.Read(max);
  }

  // -----------------------------------------------------------------------
  // An algorithm: its descriptor and its pools

  /** One supported algorithm: its mutable descriptor (`getConfig` hands
      out a pointer to it, so changes persist), its compressor pool (whose
      compressors are eager for gzip and deflate) and, for zstd and br, its
      decompressor pool; gzip and deflate have none and make a fresh reader
      per request. */
  class Algorithm {
    const token: string
    var cfg: AlgorithmConfig
    const compressorPool: EncoderPool
    const decompressorPool: DecoderPool?

    constructor (token: string, cfg: AlgorithmConfig, eagerWriter: bool, pooledReader: bool)
      ensures this.token == token && this.cfg == cfg
      ensures fresh(compressorPool) && compressorPool.idle == [] && compressorPool.lent == {}
      ensures compressorPool.eager == eagerWriter
      ensures pooledReader <==> decompressorPool != null
      ensures decompressorPool != null ==>
        fresh(decompressorPool) && decompressorPool.idle == [] && decompressorPool.lent == {}
      ensures Valid()
    {
      this.token := token;
      this.cfg := cfg;
      compressorPool := new EncoderPool(token, eagerWriter);
      if pooledReader {
        decompressorPool := new DecoderPool(token);
      } else {
        decompressorPool := null;
      }
    }

    /** The pools and their idle instances. */
    ghost function PoolFootprint(): set<object>
      reads compressorPool, decompressorPool
    {
      var encoders: set<object> := set e | e in compressorPool.idle;
      var decoders: set<object> := if decompressorPool != null then set d | d in decompressorPool.idle else {};
      var pools: set<object> := if decompressorPool != null then {compressorPool, decompressorPool} else {compressorPool};
      pools + encoders + decoders
    }

    ghost predicate Valid()
      reads compressorPool, decompressorPool, PoolFootprint()
    {
      && compressorPool.token == token && compressorPool.Valid()
      && (decompressorPool != null ==> decompressorPool.token == token && decompressorPool.Valid())
    }

    /** getWriter: take a compressor from the pool (a new one is made at
        the currently configured level), rebind it to the response, and
        wrap it, open, with the same pool. */
    method GetWriter(s: Sink) returns (ww: WrappedWriter)
      requires Valid()
      modifies compressorPool, set e | e in compressorPool.idle
      ensures Valid() && fresh(ww) && !ww.c && ww.Valid()
      ensures ww.p == compressorPool && ww.w.token == token
      ensures ww.w.target == Net(s) && ww.w.input == [] && !ww.w.headed && ww.w.eager == compressorPool.eager
      ensures ww.w !in old(compressorPool.lent) && compressorPool.lent == old(compressorPool.lent) + {ww.w}
      ensures old(compressorPool.idle) == [] ==>
        fresh(ww.w) && ww.w.level == cfg.compressLevel && compressorPool.idle == []
      ensures old(compressorPool.idle) != [] ==>
        ww.w == old(compressorPool.idle)[|old(compressorPool.idle)| - 1]
        && compressorPool.idle == old(compressorPool.idle)[..|old(compressorPool.idle)| - 1]
    {
      var e := compressorPool.Get(cfg.compressLevel);
      e.Reset(Net(s));
      ww := new WrappedWriter(e, compressorPool);
    }

    /** getReader: for zstd and br, take a decompressor from the pool,
        rebind it to `src` and wrap it, open, with the pool; for gzip and
        deflate, make a fresh one reading `src`. */
    method GetReader(src: object) returns (rc: ReadCloser)
      requires Valid()
      modifies decompressorPool, if decompressorPool != null then set d | d in decompressorPool.idle else {}
      ensures Valid()
      ensures rc.Inner().source == Upstream(src) && rc.Inner().token == token
      ensures rc.Inner().err.None? && rc.Open()
      ensures decompressorPool == null ==> rc.Plain? && fresh(rc.d)
      ensures decompressorPool != null ==>
        && rc.Wrapped? && fresh(rc.wr) && rc.wr.p == decompressorPool
        && rc.wr.r !in old(decompressorPool.lent)
        && decompressorPool.lent == old(decompressorPool.lent) + {rc.wr.r}
        && (old(decompressorPool.idle) == [] ==> fresh(rc.wr.r) && decompressorPool.idle == [])
        && (old(decompressorPool.idle) != [] ==>
              rc.wr.r == old(decompressorPool.idle)[|old(decompressorPool.idle)| - 1]
              && decompressorPool.idle == old(decompressorPool.idle)[..|old(decompressorPool.idle)| - 1])
    {
      if decompressorPool != null {
        var d := decompressorPool.Get();
        d.Reset(Upstream(src));
        var wr := new WrappedReader(d, decompressorPool);
        rc := Wrapped(wr);
      } else {
        rc := GetPlainReader(src);
      }
    }

    /** getReader of gzip and deflate: a fresh decompressor reading `src`;
        nothing else changes. */
    method GetPlainReader(src: object) returns (rc: ReadCloser)
      requires decompressorPool == null
      ensures rc.Plain? && fresh(rc.d) && rc.d.source == Upstream(src) && rc.d.token == token
      ensures rc.d.err.None? && rc.Open()
    {
      var d := new Decoder(token, Upstream(src));
      rc := Plain(d);
    }
  }
}
