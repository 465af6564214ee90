/** The deferred-commit response writer (respWriter in bodyWriter.go). It
    keeps what the handler writes in a buffer until the buffered length
    plus the length of an incoming write reaches the threshold; at that
    point it takes a compressor, drains the buffer into it and from then on
    forwards every write to the compressor. Closing it either copies the
    buffer to the response unchanged or finishes the compressed stream. */
module BodyWriter {
  import opened Common
  import opened Codec
  import opened Algo

  class RespWriter {
    /** The response underneath (the embedded gin.ResponseWriter). */
    const sink: Sink
    const threshold: int
    const algo: Algorithm
    /** The buffer; `None` once it has been swapped for the compressor. */
    var buf: Option<Bytes>
    var bytesWritten: int
    var compressor: WrappedWriter?
    /** Every byte a write has accepted, in order. */
    ghost var accepted: Bytes
    /** The prefix of `accepted` a Close before the swap has already copied
        to the response unchanged. */
    ghost var direct: Bytes

    /** `bytesWritten` counts the accepted bytes. Before the swap the
        buffer holds what was accepted and not yet copied out; after it the
        compressor, while open, is bound to the response, on loan from the
        algorithm's pool, and has been given exactly those bytes. */
    ghost predicate Valid()
      reads this, compressor, if compressor != null then {compressor.w, compressor.p} else {}
    {
      && bytesWritten == |accepted|
      && |direct| <= |accepted| && direct == accepted[..|direct|]
      && (buf.Some? ==> buf.value == accepted[|direct|..])
      && (buf.None? ==>
            && compressor != null && compressor.p == algo.compressorPool
            && (!compressor.c ==>
                  && compressor.Valid()
                  && compressor.w.target == Net(sink)
                  && compressor.w.input == accepted[|direct|..]))
    }

    /** newResponseWriter: an empty buffer, nothing written, no compressor. */
    constructor (sink: Sink, swapSize: int, algo: Algorithm)
      ensures this.sink == sink && threshold == swapSize && this.algo == algo
      ensures buf == Some([]) && bytesWritten == 0 && compressor == null
      ensures accepted == [] && direct == []
      ensures Valid()
    {
      this.sink := sink;
      threshold := swapSize;
      this.algo := algo;
      buf := Some([]);
      bytesWritten := 0;
      compressor := null;
      accepted := [];
      direct := [];
    }

    /** The algorithm's compressors write their header on their first
        write (gzip and deflate): from the swap on, the response has been
        written to. */
    predicate Eager()
    {
      algo.compressorPool.eager
    }

    /** Swapped: the buffer has been given up for the compressor. */
    predicate Swapped()
      reads this
    {
      buf.None?
    }

    /** Size: the number of uncompressed bytes the writer has accepted. */
    function Size(): (n: int)
      requires Valid()
      reads this, compressor, if compressor != null then {compressor.w, compressor.p} else {}
      ensures n == |accepted| && n >= 0
    {
      bytesWritten
    }

    /** Written: some byte has been accepted. */
    function Written(): (r: bool)
      requires Valid()
      reads this, compressor, if compressor != null then {compressor.w, compressor.p} else {}
      ensures r <==> accepted != []
    {
      bytesWritten > 0
    }

    /** The write of `b` goes to the compressor: either the swap has
        happened or this write triggers it (the threshold is inclusive). */
    predicate Reaches(b: Bytes)
      reads this
    {
      buf.None? || |buf.value| + |b| >= threshold
    }

    /** Write. `Content-Length` is dropped first. A write that does not
        reach the threshold is buffered. One that reaches it takes a
        compressor, drains the buffer into it (a failing drain returns the
        error and leaves the buffer, and the compressor just taken is never
        returned), and swaps. After the swap the write goes to the
        compressor. Only a successful write is counted. Only an eager
        compressor touches the response before Close: the first write that
        reaches the threshold commits it, and over a failed transport that
        write and every later one fail. */
    method Write(b: Bytes) returns (n: int, st: Status)
      requires Valid() && algo.Valid()
      modifies this, sink`header, sink`body, sink`size, algo.compressorPool, set e | e in algo.compressorPool.idle
      modifies if compressor != null then {compressor.w} else {}
      ensures Valid() && algo.Valid()
      ensures sink.header == old(sink.header) - {ContentLength} && sink.body == old(sink.body)
      ensures st == Ok ==> n == |b| && accepted == old(accepted) + b
      ensures st != Ok ==> n == 0 && accepted == old(accepted)
      ensures direct == old(direct)
      ensures old(Swapped()) ==> Swapped() && compressor == old(compressor)
      ensures !old(Reaches(b)) ==> st == Ok && buf == Some(old(buf).value + b)
      ensures old(Reaches(b)) && !old(Swapped()) && !(old(sink.err).Some? && Eager() && old(buf).value != []) ==>
        Swapped() && fresh(compressor) && compressor.w.token == algo.token
      ensures old(Reaches(b)) && !old(Swapped()) && old(sink.err).Some? && Eager() && old(buf).value != [] ==>
        st.Error? && buf == old(buf)
      ensures old(Swapped()) && old(compressor.c) ==> st.Panic?
      ensures old(Reaches(b)) && !(old(Swapped()) && old(compressor.c)) ==>
        (st == Ok <==> !(old(sink.err).Some? && Eager()))
      ensures st.Error? ==> old(sink.err).Some? && Eager()
      ensures !(Eager() && old(Reaches(b))) ==> sink.size == old(sink.size)
      ensures Eager() && old(Reaches(b)) && !old(Swapped()) ==> sink.size == Started(old(sink.size))
      ensures sink.size == old(sink.size) || sink.size == Started(old(sink.size))
      ensures forall e :: e in algo.compressorPool.idle ==> e in old(algo.compressorPool.idle)
      ensures compressor != old(compressor) ==>
        && compressor != null && fresh(compressor) && !compressor.c && compressor.p == algo.compressorPool
        && (fresh(compressor.w) || compressor.w in old(algo.compressorPool.idle))
    {
      sink.header := sink.header - {ContentLength};
      if buf.Some? && |buf.value| + |b| >= threshold {
        var copied, cst := Swap();
        if cst != Ok {
          return copied, cst;
        }
      }
      if buf.None? {
        n, st := Forward(b);
      } else {
        Buffer(b);
        n, st := |b|, Ok;
      }
    }

    /** The swap: take a compressor bound to the response and drain the
        buffer into it (an empty buffer is not written at all). On success
        the buffer is given up; on failure it is kept, and so is the
        compressor just taken, without being returned to the pool. An eager
        compressor writes its header to the response with the drain. */
    method Swap() returns (copied: int, st: Status)
      requires Valid() && algo.Valid() && buf.Some?
      modifies this, sink`body, sink`size, algo.compressorPool, set e | e in algo.compressorPool.idle
      ensures Valid() && algo.Valid()
      ensures sink.body == old(sink.body)
      ensures sink.size == if Eager() && old(buf).value != [] then Started(old(sink.size)) else old(sink.size)
      ensures accepted == old(accepted) && direct == old(direct)
      ensures fresh(compressor) && !compressor.c && compressor.w.token == algo.token && compressor.p == algo.compressorPool
      ensures fresh(compressor.w) || compressor.w in old(algo.compressorPool.idle)
      ensures compressor.w.headed == (Eager() && old(buf).value != [])
      ensures forall e :: e in algo.compressorPool.idle ==> e in old(algo.compressorPool.idle)
      ensures old(sink.err).Some? && Eager() && old(buf).value != [] ==> st.Error? && copied == 0 && buf == old(buf)
      ensures !(old(sink.err).Some? && Eager() && old(buf).value != []) ==> st == Ok && buf.None?
    {
      var ww := algo.GetWriter(sink);
      compressor := ww;
      copied, st := Drain(ww, buf.value);
      if st == Ok {
        buf := None;
      }
    }

    /** io.Copy of the buffer into the compressor just taken: nothing is
        written when the buffer is empty. */
    method Drain(ww: WrappedWriter, data: Bytes) returns (copied: int, st: Status)
      requires !ww.c && ww.w.target == Net(sink)
      modifies ww.w`input, ww.w`headed, sink`body, sink`size
      ensures sink.body == old(sink.body)
      ensures ww.w.headed == (old(ww.w.headed) || (ww.w.eager && data != []))
      ensures sink.size ==
        if ww.w.eager && !old(ww.w.headed) && data != [] then Started(old(sink.size)) else old(sink.size)
      ensures ww.w.eager && sink.err.Some? && data != [] ==> st.Error? && copied == 0 && ww.w.input == old(ww.w.input)
      ensures !(ww.w.eager && sink.err.Some? && data != []) ==>
        st == Ok && copied == |data| && ww.w.input == old(ww.w.input) + data
    {
      if |data| > 0 {
        copied, st := ww.Write(data);
      } else {
        copied, st := 0, Ok;
      }
    }

    /** A write after the swap goes to the compressor; it is counted when
        the compressor takes it. */
    method Forward(b: Bytes) returns (n: int, st: Status)
      requires Valid() && algo.Valid() && buf.None?
      modifies this`bytesWritten, this`accepted, compressor.w, sink`body, sink`size
      ensures Valid() && algo.Valid()
      ensures st == Ok ==> n == |b| && accepted == old(accepted) + b
      ensures st != Ok ==> n == 0 && accepted == old(accepted)
      ensures sink.body == old(sink.body)
      ensures compressor.c ==> st.Panic? && sink.size == old(sink.size)
      ensures !compressor.c ==> (st == Ok <==> !(Eager() && sink.err.Some?)) && (st != Ok ==> st.Error?)
      ensures !compressor.c ==> compressor.w.headed == (old(compressor.w.headed) || Eager())
      ensures !compressor.c ==>
        sink.size == if Eager() && !old(compressor.w.headed) then Started(old(sink.size)) else old(sink.size)
    {
      assert !compressor.c ==> compressor.w !in algo.compressorPool.idle;
      n, st := compressor.Write(b);
      if st == Ok {
        bytesWritten := bytesWritten + n;
        accepted := accepted + b;
      }
    }

    /** A write before the swap that does not reach the threshold is
        appended to the buffer. */
    method Buffer(b: Bytes)
      requires Valid() && buf.Some?
      modifies this`buf, this`bytesWritten, this`accepted
      ensures Valid()
      ensures buf == Some(old(buf).value + b) && accepted == old(accepted) + b
    {
      buf := Some(buf.value + b);
      bytesWritten := bytesWritten + |b|;
      accepted := accepted + b;
    }

    /** WriteString: the bytes of `s`, written. */
    method WriteString(s: Bytes) returns (n: int, st: Status)
      requires Valid() && algo.Valid()
      modifies this, sink`header, sink`body, sink`size, algo.compressorPool, set e | e in algo.compressorPool.idle
      modifies if compressor != null then {compressor.w} else {}
      ensures Valid() && algo.Valid()
      ensures sink.header == old(sink.header) - {ContentLength}
      ensures st == Ok ==> n == |s| && accepted == old(accepted) + s
      ensures st != Ok ==> n == 0 && accepted == old(accepted)
      ensures old(Swapped()) ==> Swapped()
      ensures !old(Reaches(s)) ==> st == Ok && buf == Some(old(buf).value + s)
    {
      n, st := Write(s);
    }

    /** Close. Before the swap, the buffer is copied unchanged to the
        response (nothing is written when it is empty; a failing copy
        returns the error and keeps the buffer). After the swap, the
        result is that of closing the compressor, which finishes the
        stream and returns the compressor to its pool. */
    method Close() returns (st: Status)
      requires Valid() && algo.Valid()
      modifies this, sink`body, sink`size
      modifies if compressor != null then {compressor, compressor.w, compressor.p} else {}
      ensures Valid() && algo.Valid()
      ensures accepted == old(accepted) && Swapped() == old(Swapped()) && compressor == old(compressor)
      ensures !old(Swapped()) && old(sink.err).Some? && old(buf).value != [] ==>
        st.Error? && sink.body == old(sink.body) && buf == old(buf) && direct == old(direct)
      ensures !old(Swapped()) && (old(sink.err).None? || old(buf).value == []) ==>
        st == Ok && sink.body == old(sink.body) + old(buf).value && buf == Some([]) && direct == accepted
      ensures old(Swapped()) ==> sink.body == old(sink.body) && compressor.c && direct == old(direct)
      ensures old(Swapped()) && !old(compressor.c) ==> sink.size == Started(old(sink.size))
      ensures old(Swapped()) && old(compressor.c) ==> st.Panic?
      ensures old(Swapped()) && !old(compressor.c) ==>
        && (st == Ok <==> old(sink.err).None?)
        && compressor.w.streamed == accepted[|direct|..]
        && compressor.w.target == Discard
        && algo.compressorPool.idle == old(algo.compressorPool.idle) + [compressor.w]
    {
      if buf.Some? {
        if |buf.value| > 0 {
          var _, cst := sink.Write(buf.value);
          if cst != Ok {
            return cst;
          }
          direct := direct + buf.value;
          buf := Some([]);
        }
        assert direct == accepted;
        return Ok;
      } else {
        st := compressor.Close();
      }
    }

    /** WriteHeader: drop `Content-Length`, then pass the status on to the
        response, which keeps it only while nothing has been written. */
    method WriteHeader(code: int)
      modifies sink`header, sink`status
      ensures sink.header == old(sink.header) - {ContentLength}
      ensures sink.status == if code > 0 && !old(sink.Written()) then code else old(sink.status)
    {
      sink.header := sink.header - {ContentLength};
      sink.WriteHeader(code);
    }
  }
}
