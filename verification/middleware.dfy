/** The request side of the middleware (decompressRequest in
    middleware.go): peeling the content codings of a request body, last
    applied first, and rewriting the request headers to match. */
module Middleware {
  import opened Common
  import opened Codec
  import opened Algo
  import opened Registry
  import opened Options
  import opened BodyReader

  /** The part of the request the middleware touches: its headers and its
      body stream, which may be nil (`None`). */
  class Request {
    var header: Headers
    var body: Option<object>

    constructor (header: Headers, body: Option<object>)
      ensures this.header == header && this.body == body
    {
      this.header := header;
      this.body := body;
    }

    /** Replace the headers and the body stream. */
    method Replace(header: Headers, body: Option<object>)
      modifies this
      ensures this.header == header && this.body == body
    {
      this.header, this.body := header, body;
    }
  }

  // -----------------------------------------------------------------------
  // decompressRequest

  /** The request's content codings in the order they were applied: the
      `Content-Encoding` header without spaces, split at commas. There is
      always at least one, possibly empty, token. */
  function ContentEncodings(h: Headers): (r: seq<string>)
    ensures |r| >= 1
    ensures forall i :: 0 <= i < |r| ==> ',' !in r[i] && ' ' !in r[i]
  {
    var s := RemoveSpaces(GetHeader(h, ContentEncoding));
    SplitPiecesFrom(s, ',', ' ');
    Split(s, ',')
  }

  /** How many codings are undone: the longest run of supported tokens at
      the end of `encs`, cut off after `steps` of them. */
  function Peeled(encs: seq<string>, steps: int): (k: nat)
    ensures k <= |encs| && (k > 0 ==> k <= steps)
    ensures forall j :: |encs| - k <= j < |encs| ==> encs[j] in Tokens
    ensures k < |encs| && k < steps ==> encs[|encs| - 1 - k] !in Tokens
  {
    if |encs| == 0 || steps <= 0 || encs[|encs| - 1] !in Tokens then 0
    else
      var init := encs[..|encs| - 1];
      var k := Peeled(init, steps - 1);
      assert forall j :: |init| - k <= j < |init| ==> encs[j] == init[j];
      1 + k
  }

  /** The request headers once `k >= 1` codings have been undone: no
      `Content-Length`, and a `Content-Encoding` naming the codings still
      applied, or none when all were undone. */
  function Rewritten(h: Headers, encs: seq<string>, k: nat): (r: Headers)
    requires 1 <= k <= |encs|
    ensures ContentLength !in r
    ensures k == |encs| <==> ContentEncoding !in r
    ensures forall key :: key != ContentLength && key != ContentEncoding ==>
      (key in r <==> key in h) && (key in h ==> r[key] == h[key])
  {
    var h1 := h - {ContentLength};
    if k == |encs| then h1 - {ContentEncoding}
    else h1[ContentEncoding := Join(encs[..|encs| - k], ", ")]
  }

  /** Reading the rewritten header back gives exactly the codings that are
      still applied, so the handler sees a consistent request. */
  lemma RewrittenReparses(h: Headers, k: nat)
    requires 1 <= k < |ContentEncodings(h)|
    ensures ContentEncodings(Rewritten(h, ContentEncodings(h), k)) == ContentEncodings(h)[..|ContentEncodings(h)| - k]
  {
    var encs := ContentEncodings(h);
    var rest := encs[..|encs| - k];
    assert forall i :: 0 <= i < |rest| ==> ' ' !in rest[i] && ',' !in rest[i] by {
      forall i | 0 <= i < |rest| ensures ' ' !in rest[i] && ',' !in rest[i] {
        assert rest[i] == encs[i];
      }
    }
    assert GetHeader(Rewritten(h, encs, k), ContentEncoding) == Join(rest, ", ");
    RemoveSpacesJoin(rest);
    SplitJoin(rest, ',');
  }

  /** The layers read from each other in order: the first reads the
      request's own body, each later one the layer before it, and the layer
      undoing the m-th last coding is made by that coding's algorithm. */
  ghost predicate Chain(readers: seq<ReadCloser>, encs: seq<string>, body: object)
    reads set m | 0 <= m < |readers| :: readers[m].Inner()
  {
    && |readers| <= |encs|
    && (|readers| > 0 ==> readers[0].Inner().source == Upstream(body))
    && (forall m :: 0 < m < |readers| ==> readers[m].Inner().source == Upstream(readers[m - 1].Stream()))
    && (forall m :: 0 <= m < |readers| ==> readers[m].Inner().token == encs[|encs| - 1 - m])
  }

  /** decompressRequest. Nothing changes when decoding is switched off, the
      body is nil, or the last coding is not supported (this includes a
      missing header, which splits to one empty token). Otherwise the
      supported codings at the end of the list, at most `maxDecodeSteps`,
      are undone: the headers are rewritten and the body becomes a chain of
      that many decompressors over the original body. Whether an algorithm
      is enabled plays no part here. */
  method DecompressRequest(opts: CompressOptions, reg: Registry, req: Request) returns (br: CompressedBodyReader?)
    requires reg.Valid()
    modifies req, reg.DecoderPools(), IdleIn(reg.DecoderPools())
    ensures reg.Valid()
    ensures var encs := ContentEncodings(old(req.header)); var k := Peeled(encs, opts.maxDecodeSteps);
      (opts.skipDecompressRequest || old(req.body).None? || k == 0) ==>
        br == null && req.header == old(req.header) && req.body == old(req.body)
    ensures var encs := ContentEncodings(old(req.header)); var k := Peeled(encs, opts.maxDecodeSteps);
      !(opts.skipDecompressRequest || old(req.body).None? || k == 0) ==>
        && br != null && fresh(br) && req.body == Some(br)
        && req.header == Rewritten(old(req.header), encs, k)
        && |br.decomps| == k && Chain(br.decomps, encs, old(req.body).value)
        && br.Valid()
  {
    if opts.skipDecompressRequest {
      return null;
    }
    var encodings := Split(RemoveSpaces(GetHeader(req.header, ContentEncoding)), ',');
    if |encodings| == 0 || req.body.None? {
      return null;
    }
    var readers, i := PeelLayers(reg, encodings, opts.maxDecodeSteps, req.body.value);
    if |readers| == 0 {
      return null;
    }
    br := NewBodyReader(readers, reg.DecoderPools(), encodings, req.body.value);
    Install(reg, req, encodings, i, br, req.body.value);
  }

  /** The end of decompressRequest: the headers are rewritten (drop
      `Content-Length`, and drop `Content-Encoding` when the walk ran off
      the start of the list, or set it to the codings before the one where
      it stopped) and the chain becomes the request's body. */
  method Install(reg: Registry, req: Request, encs: seq<string>, i: int, br: CompressedBodyReader, ghost body: object)
    requires -1 <= i < |encs| - 1
    requires reg.Valid() && br.Valid() && Chain(br.decomps, encs, body)
    modifies req
    ensures req.header == Rewritten(old(req.header), encs, |encs| - 1 - i) && req.body == Some(br)
    ensures reg.Valid() && br.Valid() && Chain(br.decomps, encs, body)
  {
    var header := req.header - {ContentLength};
    if i <= -1 {
      header := header - {ContentEncoding};
    } else {
      header := header[ContentEncoding := Join(encs[..i + 1], ", ")];
    }
    req.header, req.body := header, Some(br);
  }

  /** The reader over the layers; it is valid over the pools its layers
      use, and the layers still form the chain. */
  method NewBodyReader(readers: seq<ReadCloser>, ghost pools: set<DecoderPool>, ghost encs: seq<string>, ghost body: object)
    returns (br: CompressedBodyReader)
    requires LayersValid(readers, pools) && Chain(readers, encs, body)
    ensures fresh(br) && br.decomps == readers && br.Valid() && Chain(br.decomps, encs, body)
  {
    br := new CompressedBodyReader(readers);
    LayersValidFewerPools(readers, pools, br.Pools());
  }

  /** The loop of decompressRequest: walk the codings from the last,
      getting a decompressor for each supported one that reads from the
      previous layer, until an unsupported coding, the start of the list
      or the step limit is reached. `i` is the index where it stopped. */
  method PeelLayers(reg: Registry, encs: seq<string>, steps: int, body: object) returns (readers: seq<ReadCloser>, i: int)
    requires reg.Valid() && |encs| >= 1
    modifies reg.DecoderPools(), IdleIn(reg.DecoderPools())
    ensures |readers| == Peeled(encs, steps) && i == |encs| - 1 - |readers|
    ensures Peeling(reg, readers, encs, body)
  {
    ghost var pools := reg.DecoderPools();
    readers := [];
    i := |encs| - 1;
    while i >= |encs| - steps && i >= 0
      invariant -1 <= i < |encs| && |readers| == |encs| - 1 - i
      invariant Peeled(encs, steps) == |readers| + Peeled(encs[..i + 1], steps - |readers|)
      invariant Peeling(reg, readers, encs, body)
      invariant IdleIn(pools) <= old(IdleIn(pools))
      decreases i
    {
      PeeledNext(encs, i, steps - |readers|);
      var found;
      readers, found := PeelStep(reg, encs, i, readers, body);
      if !found {
        return;
      }
      i := i - 1;
    }
    PeeledNone(encs, i, steps - |readers|);
  }

  /** Peeling the prefix that ends at `i`: a supported coding there is one
      more layer, an unsupported one stops the count. */
  lemma PeeledNext(encs: seq<string>, i: int, s: int)
    requires 0 <= i < |encs| && s > 0
    ensures encs[i] in Tokens ==> Peeled(encs[..i + 1], s) == 1 + Peeled(encs[..i], s - 1)
    ensures encs[i] !in Tokens ==> Peeled(encs[..i + 1], s) == 0
  {
    assert encs[..i + 1][..i] == encs[..i];
  }

  /** Nothing is peeled from an empty prefix or without steps left. */
  lemma PeeledNone(encs: seq<string>, i: int, s: int)
    requires -1 <= i < |encs| && (i == -1 || s <= 0)
    ensures Peeled(encs[..i + 1], s) == 0
  {
  }

  /** One turn of the loop at index `i`: a supported coding adds a layer
      over the outermost one so far (or over the body); an unsupported one
      adds nothing. */
  method PeelStep(reg: Registry, encs: seq<string>, i: int, readers: seq<ReadCloser>, body: object)
    returns (readers': seq<ReadCloser>, found: bool)
    requires 0 <= i < |encs| && |readers| == |encs| - 1 - i
    requires Peeling(reg, readers, encs, body)
    modifies reg.DecoderPools(), IdleIn(reg.DecoderPools())
    ensures Peeling(reg, readers', encs, body)
    ensures IdleIn(reg.DecoderPools()) <= old(IdleIn(reg.DecoderPools()))
    ensures found <==> encs[i] in Tokens
    ensures found ==> |readers'| == |readers| + 1
    ensures !found ==> readers' == readers
  {
    var enc := encs[i];
    var w := body;
    if |readers| > 0 {
      w := readers[|readers| - 1].Stream();
    }
    var algorithms := reg.Algorithms();
    if enc in algorithms {
      var r := AddLayer(reg, algorithms[enc], readers, encs, body, w);
      readers', found := readers + [r], true;
    } else {
      readers', found := readers, false;
    }
  }

  /** The state the loop keeps: the registry is valid and the layers so
      far form a valid chain. */
  ghost predicate Peeling(reg: Registry, readers: seq<ReadCloser>, encs: seq<string>, body: object)
    reads reg.Pools(), reg.Repr(), set m | 0 <= m < |readers| :: readers[m].Inner()
    reads if reg.Valid() then reg.DecoderPools() + IdleIn(reg.DecoderPools()) + LayerObjects(readers) else {}
  {
    && reg.Valid()
    && Chain(readers, encs, body)
    && LayersValid(readers, reg.DecoderPools())
  }

  /** One step of the loop: `getReader` of algorithm `a` over `src`, the
      outermost layer so far, extends the chain; the registry stays valid
      and its pools only shrink. */
  method AddLayer(reg: Registry, a: Algorithm, readers: seq<ReadCloser>, encs: seq<string>, body: object, src: object)
    returns (r: ReadCloser)
    requires Peeling(reg, readers, encs, body) && a in reg.Algorithms().Values
    requires |readers| < |encs| && a.token == encs[|encs| - 1 - |readers|]
    requires src == if |readers| == 0 then body else readers[|readers| - 1].Stream()
    modifies a.decompressorPool, if a.decompressorPool != null then set d | d in a.decompressorPool.idle else {}
    ensures Peeling(reg, readers + [r], encs, body)
    ensures IdleIn(reg.DecoderPools()) <= old(IdleIn(reg.DecoderPools()))
    ensures fresh(r.Stream())
  {
    if a.decompressorPool != null {
      r := AddPooled(reg, a, readers, encs, body, src);
    } else {
      r := AddPlain(reg, a, readers, encs, body, src);
    }
    LayersAppend(readers, r, reg.DecoderPools());
    ChainAppend(readers, r, encs, body);
  }

  /** A layer over the outermost layer so far, made by the algorithm of the
      next coding, extends the chain. */
  lemma ChainAppend(readers: seq<ReadCloser>, r: ReadCloser, encs: seq<string>, body: object)
    requires Chain(readers, encs, body) && |readers| < |encs|
    requires r.Inner().source == Upstream(if |readers| == 0 then body else readers[|readers| - 1].Stream())
    requires r.Inner().token == encs[|encs| - 1 - |readers|]
    ensures Chain(readers + [r], encs, body)
  {
    var rs := readers + [r];
    forall m | 0 < m < |rs|
      ensures rs[m].Inner().source == Upstream(rs[m - 1].Stream())
    {
      assert rs[m - 1] == readers[m - 1];
      if m < |readers| {
        assert rs[m] == readers[m];
      }
    }
    forall m | 0 <= m < |rs|
      ensures rs[m].Inner().token == encs[|encs| - 1 - m]
    {
      if m < |readers| {
        assert rs[m] == readers[m];
      }
    }
  }

  /** A layer that is open, distinct from the layers of a valid chain, uses
      one of its pools and is idle in none of them extends the chain. */
  lemma LayersAppend(readers: seq<ReadCloser>, r: ReadCloser, pools: set<DecoderPool>)
    requires LayersValid(readers, pools) && r.Open()
    requires forall m :: 0 <= m < |readers| ==> readers[m].Inner() != r.Inner() && readers[m].Stream() != r.Stream()
    requires r.Wrapped? ==> r.wr.p in pools
    requires forall p :: p in pools ==> r.Inner() !in p.idle
    ensures LayersValid(readers + [r], pools)
  {
  }

  /** `getReader` of gzip or deflate: a fresh decompressor; nothing else
      changes. */
  method AddPlain(reg: Registry, a: Algorithm, readers: seq<ReadCloser>, encs: seq<string>, body: object, src: object)
    returns (r: ReadCloser)
    requires reg.Valid() && a in reg.Algorithms().Values && a.decompressorPool == null
    requires LayersValid(readers, reg.DecoderPools()) && Chain(readers, encs, body)
    ensures reg.Valid() && LayersValid(readers, reg.DecoderPools()) && Chain(readers, encs, body)
    ensures r.Inner().source == Upstream(src) && r.Inner().token == a.token && fresh(r.Stream()) && r.Open()
    ensures r.Plain? && fresh(r.Inner())
  {
    r := a.GetPlainReader(src);
  }

  /** `getReader` of zstd or br, appended to a chain: the chain's sources
      are not touched. */
  method AddPooled(reg: Registry, a: Algorithm, readers: seq<ReadCloser>, encs: seq<string>, body: object, src: object)
    returns (r: ReadCloser)
    requires reg.Valid() && a in reg.Algorithms().Values && a.decompressorPool != null
    requires LayersValid(readers, reg.DecoderPools()) && Chain(readers, encs, body)
    modifies a.decompressorPool, set d | d in a.decompressorPool.idle
    ensures reg.Valid() && LayersValid(readers, reg.DecoderPools()) && Chain(readers, encs, body)
    ensures forall d :: d in a.decompressorPool.idle ==> d in old(a.decompressorPool.idle)
    ensures r.Inner().source == Upstream(src) && r.Inner().token == a.token && fresh(r.Stream()) && r.Open()
    ensures r.Wrapped? && r.wr.p == a.decompressorPool
    ensures forall p :: p in reg.DecoderPools() ==> r.Inner() !in p.idle
    ensures forall m :: 0 <= m < |readers| ==> readers[m].Inner() != r.Inner()
  {
    r := TakePooled(reg, a, readers, src);
    assert readers != [] ==> readers[0].Inner().source == old(readers[0].Inner().source);
  }

  /** `getReader` of zstd or br: a decompressor taken from the pool, which
      is none of the decompressors of the chain, and which no pool keeps
      idle any more. */
  method TakePooled(reg: Registry, a: Algorithm, readers: seq<ReadCloser>, src: object) returns (r: ReadCloser)
    requires reg.Valid() && a in reg.Algorithms().Values && a.decompressorPool != null
    requires LayersValid(readers, reg.DecoderPools())
    modifies a.decompressorPool, set d | d in a.decompressorPool.idle
    ensures reg.Valid() && LayersValid(readers, reg.DecoderPools())
    ensures forall d :: d in a.decompressorPool.idle ==> d in old(a.decompressorPool.idle)
    ensures r.Inner().source == Upstream(src) && r.Inner().token == a.token && fresh(r.Stream()) && r.Open()
    ensures r.Wrapped? && r.wr.p == a.decompressorPool
    ensures forall p :: p in reg.DecoderPools() ==> r.Inner() !in p.idle
    ensures forall m :: 0 <= m < |readers| ==> readers[m].Inner() != r.Inner()
    ensures forall m :: 0 <= m < |readers| ==> readers[m].Inner().source == old(readers[m].Inner().source)
  {
    reg.PoolsApart();
    r := TakeLayer(a, readers, reg.DecoderPools(), src);
  }
}
