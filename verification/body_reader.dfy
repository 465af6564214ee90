/** The decoded request body (compressedBodyReader in bodyReader.go): the
    chain of decompressors the request decoder builds, innermost first.
    Reading reads the outermost layer; closing closes the layers in order. */
module BodyReader {
  import opened Common
  import opened Codec
  import opened Algo

  /** The position of the first failing result, or |rs| when none fails. */
  function FirstFailure(rs: seq<Status>): (k: nat)
    ensures k <= |rs|
    ensures forall i :: 0 <= i < k ==> rs[i] == Ok
    ensures k < |rs| ==> rs[k] != Ok
  {
    if rs == [] then 0
    else if rs[0] != Ok then 0
    else 1 + FirstFailure(rs[1..])
  }

  /** How many layers the closer as written closes, given what closing each
      layer would return: the layers up to and including the first one that
      fails. */
  function ClosedAsWritten(rs: seq<Status>): (n: nat)
    ensures n <= |rs|
  {
    var k := FirstFailure(rs);
    if k < |rs| then k + 1 else |rs|
  }

  /** The closer as written leaves a layer unclosed exactly when some layer
      other than the last fails to close. */
  lemma {:induction false} AsWrittenLeavesLayersOpen(rs: seq<Status>)
    ensures ClosedAsWritten(rs) < |rs| <==> exists i :: 0 <= i < |rs| - 1 && rs[i] != Ok
  {
    var k := FirstFailure(rs);
    if exists i :: 0 <= i < |rs| - 1 && rs[i] != Ok {
      var i :| 0 <= i < |rs| - 1 && rs[i] != Ok;
      assert k <= i;
    }
    if ClosedAsWritten(rs) < |rs| {
      assert 0 <= k < |rs| - 1 && rs[k] != Ok;
    }
  }

  /** A request sent with `Content-Encoding: zstd, deflate` and decoded two
      steps deep: the inner layer is the zlib reader, whose Close reports a
      bad checksum, and the outer one the pooled zstd reader, whose Close
      cannot fail. The closer as written closes only the zlib layer, so the
      zstd decompressor is never handed back to its pool. */
  lemma BadChecksumInnerLayer()
    ensures ClosedAsWritten([Error("zlib: invalid checksum"), Ok]) == 1
  {
    assert FirstFailure([Error("zlib: invalid checksum"), Ok]) == 0;
  }

  ghost function LayerObjects(layers: seq<ReadCloser>): set<object>
  {
    set i, o | 0 <= i < |layers| && o in layers[i].Footprint() :: o
  }

  /** The idle decompressors of `pools`. */
  ghost function IdleIn(pools: set<DecoderPool>): set<object>
    reads pools
  {
    set p, d | p in pools && d in p.idle :: d
  }

  /** A chain of layers ready to be read and closed: the layers are
      distinct objects and all open, every pooled layer uses one of `pools`,
      those pools are in order, and no layer's decompressor is idle in any
      of them. */
  ghost predicate LayersValid(layers: seq<ReadCloser>, pools: set<DecoderPool>)
    reads pools, IdleIn(pools), LayerObjects(layers)
  {
    && (forall i, j :: 0 <= i < j < |layers| ==>
          layers[i].Inner() != layers[j].Inner() && layers[i].Stream() != layers[j].Stream())
    && (forall i :: 0 <= i < |layers| ==> layers[i].Open())
    && (forall i :: 0 <= i < |layers| && layers[i].Wrapped? ==> layers[i].wr.p in pools)
    && (forall p :: p in pools ==> p.Valid())
    && (forall i, p :: 0 <= i < |layers| && p in pools ==> layers[i].Inner() !in p.idle)
  }

  /** A chain valid over some pools is valid over fewer, as long as they
      still include the pools its layers use. */
  lemma LayersValidFewerPools(layers: seq<ReadCloser>, pools: set<DecoderPool>, fewer: set<DecoderPool>)
    requires LayersValid(layers, pools) && fewer <= pools
    requires forall i :: 0 <= i < |layers| && layers[i].Wrapped? ==> layers[i].wr.p in fewer
    ensures LayersValid(layers, fewer)
  {
  }

  /** Taking the next layer from a pool of the chain: the decompressor
      taken is none of the chain's and is idle in none of the pools, and the
      chain stays valid. */
  method TakeLayer(a: Algorithm, layers: seq<ReadCloser>, ghost pools: set<DecoderPool>, src: object)
    returns (r: ReadCloser)
    requires a.Valid() && a.decompressorPool != null && a.decompressorPool in pools
    requires LayersValid(layers, pools)
    requires forall p, d :: p in pools && p != a.decompressorPool && d in a.decompressorPool.idle ==> d !in p.idle
    modifies a.decompressorPool, set d | d in a.decompressorPool.idle
    ensures a.Valid() && LayersValid(layers, pools)
    ensures forall d :: d in a.decompressorPool.idle ==> d in old(a.decompressorPool.idle)
    ensures r.Inner().source == Upstream(src) && r.Inner().token == a.token && fresh(r.Stream()) && r.Open()
    ensures r.Wrapped? && r.wr.p == a.decompressorPool
    ensures forall p :: p in pools ==> r.Inner() !in p.idle
    ensures forall m :: 0 <= m < |layers| ==> layers[m].Inner() != r.Inner()
    ensures forall m :: 0 <= m < |layers| ==> layers[m].Inner().source == old(layers[m].Inner().source)
  {
    r := a.GetReader(src);
  }

  class CompressedBodyReader {
    /** The layers; the last is the outermost, the one the handler reads. */
    const decomps: seq<ReadCloser>

    constructor (decomps: seq<ReadCloser>)
      ensures this.decomps == decomps
    {
      this.decomps := decomps;
    }

    /** The pools the pooled layers return their decompressors to. */
    ghost function Pools(): set<DecoderPool>
    {
      set i | 0 <= i < |decomps| && decomps[i].Wrapped? :: decomps[i].wr.p
    }

    /** The objects closing the layers may change. */
    ghost function Layers(): set<object>
    {
      LayerObjects(decomps)
    }

    /** Everything the invariant depends on. */
    ghost function Repr(): set<object>
      reads Pools()
    {
      Layers() + IdleIn(Pools())
    }

    /** The layers form a valid chain over the pools they use. */
    ghost predicate Valid()
      reads Pools(), Repr()
    {
      LayersValid(decomps, Pools())
    }

    /** What closing each layer would return, in the current state. */
    ghost function Results(): (rs: seq<Status>)
      reads set i | 0 <= i < |decomps| :: decomps[i].Inner()
      ensures |rs| == |decomps|
      ensures forall i :: 0 <= i < |decomps| ==> rs[i] == decomps[i].CloseResult()
    {
      seq(|decomps|, i reads set j | 0 <= j < |decomps| :: decomps[j].Inner() =>
        if 0 <= i < |decomps| then decomps[i].CloseResult() else Ok)
    }

    /** Read reads from the last layer; with no layers the index is out of
        range and the read panics. No other layer is read. */
    method Read(max: nat) returns (data: Bytes, st: Status)
      modifies set i | 0 <= i < |decomps| && i == |decomps| - 1 :: decomps[i].Inner()
      ensures |decomps| == 0 ==> st.Panic? && data == []
      ensures |decomps| > 0 ==>
        var rc := decomps[|decomps| - 1];
        && (rc.Wrapped? && rc.wr.c ==> st.Panic? && data == [] && rc.Inner().pending == old(rc.Inner().pending))
        && ((rc.Plain? || !rc.wr.c) && rc.Inner().err.Some? ==> st.Error? && data == [])
        && ((rc.Plain? || !rc.wr.c) && rc.Inner().err.None? ==>
              st == Ok && |data| <= max && old(rc.Inner().pending) == data + rc.Inner().pending)
    {
      if |decomps| == 0 {
        return [], Panic("runtime error: index out of range [-1]");
      }
      data, st := ReadLayer(decomps[|decomps| - 1], max);
    }

    /** Close as written: close the layers in order, from the innermost,
        and return at once with the first failure, leaving the layers after
        it open. */
    method Close() returns (st: Status)
      requires Valid()
      modifies Layers()
      ensures var rs := old(Results()); var k := FirstFailure(rs);
        && st == (if k < |rs| then rs[k] else Ok)
        && (st == Ok <==> forall i :: 0 <= i < |rs| ==> rs[i] == Ok)
        && (forall i :: 0 <= i < |decomps| ==> (decomps[i].Closed() <==> i <= k))
    {
      ghost var rs := Results();
      var i := 0;
      while i < |decomps|
        invariant CloseProgress(i, rs)
        invariant i <= FirstFailure(rs)
        invariant forall j :: 0 <= j < i ==> decomps[j].Closed()
      {
        var s := CloseNext(i, rs);
        if s != Ok {
          return s;
        }
        i := i + 1;
      }
      return Ok;
    }

    /** CloseAll: the closer as its doc comment describes it, closing every
        layer and returning the first failure. */
    method CloseAll() returns (st: Status)
      requires Valid()
      modifies Layers()
      ensures var rs := old(Results()); var k := FirstFailure(rs);
        && st == (if k < |rs| then rs[k] else Ok)
        && (st == Ok <==> forall i :: 0 <= i < |rs| ==> rs[i] == Ok)
        && (forall i :: 0 <= i < |decomps| ==> decomps[i].Closed())
    {
      ghost var rs := Results();
      st := Ok;
      var i := 0;
      while i < |decomps|
        invariant CloseProgress(i, rs)
        invariant st == (if FirstFailure(rs) < i then rs[FirstFailure(rs)] else Ok)
        invariant forall j :: 0 <= j < i ==> decomps[j].Closed()
      {
        var s := CloseNext(i, rs);
        if st == Ok && s != Ok {
          st := s;
        }
        i := i + 1;
      }
    }

    /** The layers from `i` on are still as they were when closing began
        (open, with the results `rs`), and the pools they use are in order
        and do not hold their decompressors. */
    ghost predicate CloseProgress(i: nat, rs: seq<Status>)
      reads Pools(), Repr()
    {
      && i <= |decomps| && |rs| == |decomps|
      && (forall j, k :: 0 <= j < k < |decomps| ==>
            decomps[j].Inner() != decomps[k].Inner() && decomps[j].Stream() != decomps[k].Stream())
      && (forall j :: i <= j < |decomps| ==> decomps[j].Open() && decomps[j].CloseResult() == rs[j])
      && (forall j :: i <= j < |decomps| && decomps[j].Wrapped? ==> decomps[j].wr.p.Valid())
      && (forall j, k :: i <= j < |decomps| && i <= k < |decomps| && decomps[k].Wrapped? ==>
            decomps[j].Inner() !in decomps[k].wr.p.idle)
    }

    /** Close layer `i`, which gives `rs[i]`; the layers before it stay
        closed and those after it stay as they were. */
    method CloseNext(i: nat, ghost rs: seq<Status>) returns (s: Status)
      requires i < |decomps| && CloseProgress(i, rs)
      modifies Layers()
      ensures s == rs[i] && CloseProgress(i + 1, rs)
      ensures forall j :: 0 <= j <= i ==> (decomps[j].Closed() <==> (j == i || old(decomps[j].Closed())))
    {
      if decomps[i].Wrapped? {
        s := ClosePooled(i, rs);
      } else {
        s := ClosePlain(i, rs);
      }
    }

    /** Close pooled layer `i`: its decompressor goes back to its pool,
        which may be the pool of later layers too. */
    method ClosePooled(i: nat, ghost rs: seq<Status>) returns (s: Status)
      requires i < |decomps| && CloseProgress(i, rs) && decomps[i].Wrapped?
      modifies Layers()
      ensures s == rs[i]
      ensures forall j :: i + 1 <= j < |decomps| ==> decomps[j].Open() && decomps[j].CloseResult() == rs[j]
      ensures forall j :: i + 1 <= j < |decomps| && decomps[j].Wrapped? ==> decomps[j].wr.p.Valid()
      ensures forall j, k :: i + 1 <= j < |decomps| && i + 1 <= k < |decomps| && decomps[k].Wrapped? ==>
            decomps[j].Inner() !in decomps[k].wr.p.idle
      ensures forall j :: 0 <= j <= i ==> (decomps[j].Closed() <==> (j == i || old(decomps[j].Closed())))
    {
      var rc := decomps[i];
      assert rc.Footprint() <= Layers();
      s := CloseLayer(rc);
      forall j | i < j < |decomps|
        ensures decomps[j].Open() && decomps[j].CloseResult() == rs[j]
      {
        assert decomps[j].Inner() != rc.Inner() && decomps[j].Stream() != rc.Stream();
      }
      forall j | i < j < |decomps| && decomps[j].Wrapped?
        ensures decomps[j].wr.p.Valid()
      {
        assert rc.Inner() !in old(decomps[j].wr.p.idle);
      }
      forall j, k | i < j < |decomps| && i < k < |decomps| && decomps[k].Wrapped?
        ensures decomps[j].Inner() !in decomps[k].wr.p.idle
      {
        assert decomps[j].Inner() != rc.Inner();
      }
    }

    /** Close plain layer `i`: only its own decompressor changes. */
    method ClosePlain(i: nat, ghost rs: seq<Status>) returns (s: Status)
      requires i < |decomps| && CloseProgress(i, rs) && decomps[i].Plain?
      modifies Layers()
      ensures s == rs[i] && CloseProgress(i + 1, rs)
      ensures forall j :: 0 <= j <= i ==> (decomps[j].Closed() <==> (j == i || old(decomps[j].Closed())))
    {
      var rc := decomps[i];
      assert rc.Footprint() <= Layers();
      s := CloseLayer(rc);
      forall j | i < j < |decomps|
        ensures decomps[j].Open() && decomps[j].CloseResult() == rs[j]
      {
        assert decomps[j].Inner() != rc.Inner() && decomps[j].Stream() != rc.Stream();
      }
      forall j | i < j < |decomps| && decomps[j].Wrapped?
        ensures decomps[j].wr.p.Valid()
      {
        assert rc.Inner() !in old(decomps[j].wr.p.idle);
      }
    }
  }
}
