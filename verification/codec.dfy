/** The byte-level codecs (the gzip, zlib, brotli and zstd libraries) are
    foreign code. Each compressor or decompressor is modelled as an opaque
    object that records what it is bound to and what it has been given;
    what it emits is not modelled. The sync.Pool that keeps idle instances
    for reuse is modelled as a sequential collection that also keeps track,
    in a ghost set, of the instances it has handed out. */
module Codec {
  import opened Common

  /** The network side of a response (gin's ResponseWriter): its header
      map, the status code, the bytes written to it, gin's count of them
      (`size`, -1 until the first write), and a sticky transport failure
      that makes every later write fail. */
  class Sink {
    var header: Headers
    var status: int
    var body: Bytes
    var size: int
    var err: Option<string>

    constructor (header: Headers, err: Option<string>)
      ensures this.header == header && status == 200 && body == [] && size == -1 && this.err == err
    {
      this.header := header;
      status := 200;
      body := [];
      size := -1;
      this.err := err;
    }

    /** Write to the connection: it takes all of `b`, or fails and takes
        nothing once the transport has failed; either way the response
        counts as written from now on. */
    method Write(b: Bytes) returns (n: int, st: Status)
      modifies this`body, this`size
      ensures old(err).None? ==> st == Ok && n == |b| && body == old(body) + b
      ensures old(err).Some? ==> st == Error(err.value) && n == 0 && body == old(body)
      ensures size == Started(old(size)) + n
    {
      if err.Some? {
        n, st := 0, Error(err.value);
      } else {
        body := body + b;
        n, st := |b|, Ok;
      }
      size := Started(size) + n;
    }

    /** The response has been written to: gin has sent its status. */
    predicate Written()
      reads this
    {
      size != -1
    }

    /** Record the status code to send. A code that is not positive is
        ignored, and so is any code once the response has been written to:
        the status sent with the first byte stays. */
    method WriteHeader(code: int)
      modifies this`status
      ensures status == if code > 0 && !old(Written()) then code else old(status)
    {
      if code > 0 && status != code {
        if Written() {
          return;
        }
        status := code;
      }
    }
  }

  /** gin's count of a response's bytes once something has been written:
      the first write starts it from zero. */
  function Started(size: int): (r: int)
    ensures size < 0 ==> r == 0
    ensures size >= 0 ==> r == size
  {
    if size < 0 then 0 else size
  }

  /** Where a compressor's output goes: `ioutil.Discard` or a response. */
  datatype Target = Discard | Net(sink: Sink)

  /** An opaque streaming compressor (gzip.Writer, zlib.Writer,
      brotli.Writer, zstd.Encoder). `input` is everything written to it
      since it was last reset; `finished` says its trailer was written;
      `streamed` is the whole input of the last stream it finished. An
      `eager` compressor (the gzip and zlib writers) writes its stream
      header to its target on its first write after a reset (`headed`
      records that it has); the others (brotli, zstd) hold their output
      until Close. What a compressor emits is not modelled: it reaches the
      response as an empty write, which still commits gin's status. */
  class Encoder {
    const token: string
    const level: int
    const eager: bool
    var target: Target
    var input: Bytes
    var finished: bool
    var headed: bool
    ghost var streamed: Bytes

    /** A new compressor, bound to `ioutil.Discard` (the pools' `New`). */
    constructor (token: string, level: int, eager: bool)
      ensures this.token == token && this.level == level && this.eager == eager
      ensures target == Discard && input == [] && !finished && !headed
    {
      this.token := token;
      this.level := level;
      this.eager := eager;
      target := Discard;
      input := [];
      finished := false;
      headed := false;
      streamed := [];
    }

    /** The response the compressor writes to, if any. */
    function Out(): set<Sink>
      reads this
    {
      if target.Net? then {target.sink} else {}
    }

    /** The transport beneath the compressor has failed. */
    predicate Broken()
      reads this, Out()
    {
      target.Net? && target.sink.err.Some?
    }

    /** Write. An eager compressor first writes its header unless it has
        since the last reset; over a failed transport that write fails, and
        the compressor's error stays, so every write fails. Otherwise the
        compressor takes all of `b` (it buffers: nothing else reaches the
        response). */
    method Write(b: Bytes) returns (n: int, st: Status)
      modifies this`input, this`headed, Out()`body, Out()`size
      ensures headed == (old(headed) || eager)
      ensures !(eager && old(Broken())) ==> st == Ok && n == |b| && input == old(input) + b
      ensures eager && old(Broken()) ==> st == Error(target.sink.err.value) && n == 0 && input == old(input)
      ensures target.Net? ==> target.sink.body == old(target.sink.body)
      ensures target.Net? ==>
        target.sink.size == if eager && !old(headed) then Started(old(target.sink.size)) else old(target.sink.size)
    {
      if eager && !headed {
        headed := true;
        if target.Net? {
          var _, _ := target.sink.Write([]);
        }
      }
      if eager && Broken() {
        n, st := 0, Error(target.sink.err.value);
      } else {
        input := input + b;
        n, st := |b|, Ok;
      }
    }

    /** Close: write out whatever is held and the trailer; fails when the
        transport has failed. */
    method Close() returns (st: Status)
      modifies this`finished, this`streamed, Out()`body, Out()`size
      ensures finished && streamed == input
      ensures !old(Broken()) ==> st == Ok
      ensures old(Broken()) ==> st == Error(target.sink.err.value)
      ensures target.Net? ==> target.sink.body == old(target.sink.body)
      ensures target.Net? ==> target.sink.size == Started(old(target.sink.size))
    {
      finished := true;
      streamed := input;
      if target.Net? {
        var _, _ := target.sink.Write([]);
      }
      st := if Broken() then Error(target.sink.err.value) else Ok;
    }

    /** Reset(w): rebind to `t` and forget everything written so far. */
    method Reset(t: Target)
      modifies this`target, this`input, this`finished, this`headed
      ensures target == t && input == [] && !finished && !headed
    {
      target, input, finished, headed := t, [], false, false;
    }
  }

  /** Where a decompressor reads from: nothing (`Reset(nil)`) or a stream. */
  datatype Source = NoSource | Upstream(stream: object)

  /** An opaque streaming decompressor (gzip.Reader, zlib reader,
      brotli.Reader, zstd.Decoder). `pending` holds the decoded bytes it can
      hand out next (what they are depends on its source's bytes, which are
      not modelled); `err` is its sticky stream error (corrupt or truncated
      input); `closed` says Close was called on it. */
  class Decoder {
    const token: string
    var source: Source
    var pending: Bytes
    var err: Option<string>
    var closed: bool

    constructor (token: string, source: Source)
      ensures this.token == token && this.source == source
      ensures pending == [] && err == None && !closed
    {
      this.token := token;
      this.source := source;
      pending := [];
      err := None;
      closed := false;
    }

    /** Read at most `max` decoded bytes; a broken stream fails. */
    method Read(max: nat) returns (data: Bytes, st: Status)
      modifies this`pending
      ensures old(err).Some? ==> st == Error(err.value) && data == [] && pending == old(pending)
      ensures old(err).None? ==> st == Ok && |data| <= max && old(pending) == data + pending
      ensures old(err).None? && old(pending) != [] && max > 0 ==> data != []
    {
      if err.Some? {
        data, st := [], Error(err.value);
      } else {
        var k := if max < |pending| then max else |pending|;
        data, pending := pending[..k], pending[k..];
        st := Ok;
      }
    }

    /** Close of a gzip or zlib reader: reports the stream's error. */
    method Close() returns (st: Status)
      modifies this`closed
      ensures closed
      ensures old(err).None? ==> st == Ok
      ensures old(err).Some? ==> st == Error(old(err).value)
    {
      closed := true;
      st := if err.Some? then Error(err.value) else Ok;
    }

    /** Reset(r): rebind to `s`, dropping any decoded bytes and error. */
    method Reset(s: Source)
      modifies this`source, this`pending, this`err
      ensures source == s && pending == [] && err == None
    {
      source, pending, err := s, [], None;
    }
  }

  /** A sync.Pool of compressors. Idle compressors are distinct, are bound
      to `ioutil.Discard`, and are not among those handed out (`lent`). */
  class EncoderPool {
    const token: string
    const eager: bool
    var idle: seq<Encoder>
    ghost var lent: set<Encoder>

    ghost predicate Valid()
      reads this, set e | e in idle
    {
      && (forall i, j :: 0 <= i < j < |idle| ==> idle[i] != idle[j])
      && (forall i :: 0 <= i < |idle| ==>
            idle[i] !in lent && idle[i].target == Discard && idle[i].token == token && idle[i].eager == eager)
    }

    constructor (token: string, eager: bool)
      ensures this.token == token && this.eager == eager && idle == [] && lent == {} && Valid()
    {
      this.token := token;
      this.eager := eager;
      idle := [];
      lent := {};
    }

    /** Get: hand out an idle compressor, or make a new one bound to
        `ioutil.Discard` at `level` (the level configured when `New` runs). */
    method Get(level: int) returns (e: Encoder)
      requires Valid()
      modifies this
      ensures Valid()
      ensures e.target == Discard && e.token == token && e.eager == eager
      ensures e !in old(lent) && lent == old(lent) + {e}
      ensures old(idle) == [] ==> fresh(e) && e.level == level && e.input == [] && !e.finished && idle == []
      ensures old(idle) != [] ==> e == old(idle)[|old(idle)| - 1] && idle == old(idle)[..|old(idle)| - 1]
    {
      if |idle| == 0 {
        e := new Encoder(token, level, eager);
      } else {
        e := idle[|idle| - 1];
        idle := idle[..|idle| - 1];
      }
      lent := lent + {e};
    }

    /** Put: return a compressor. The pool stays valid when the compressor
        was handed out by it and is bound to `ioutil.Discard` again. */
    method Put(e: Encoder)
      requires Valid()
      modifies this
      ensures idle == old(idle) + [e] && lent == old(lent) - {e}
      ensures e in old(lent) && e.target == Discard && e.token == token && e.eager == eager ==> Valid()
    {
      idle := idle + [e];
      lent := lent - {e};
    }
  }

  /** A sync.Pool of decompressors. Idle decompressors are distinct, are
      bound to nothing, and are not among those handed out (`lent`). */
  class DecoderPool {
    const token: string
    var idle: seq<Decoder>
    ghost var lent: set<Decoder>

    ghost predicate Valid()
      reads this, set d | d in idle
    {
      && (forall i, j :: 0 <= i < j < |idle| ==> idle[i] != idle[j])
      && (forall i :: 0 <= i < |idle| ==>
            idle[i] !in lent && idle[i].source == NoSource && idle[i].token == token)
    }

    constructor (token: string)
      ensures this.token == token && idle == [] && lent == {} && Valid()
    {
      this.token := token;
      idle := [];
      lent := {};
    }

    /** Get: hand out an idle decompressor, or make a new one reading from
        nothing (`NewReader(nil)`). */
    method Get() returns (d: Decoder)
      requires Valid()
      modifies this
      ensures Valid()
      ensures d.source == NoSource && d.token == token
      ensures d !in old(lent) && lent == old(lent) + {d}
      ensures old(idle) == [] ==> fresh(d) && idle == []
      ensures old(idle) != [] ==> d == old(idle)[|old(idle)| - 1] && idle == old(idle)[..|old(idle)| - 1]
    {
      if |idle| == 0 {
        d := new Decoder(token, NoSource);
      } else {
        d := idle[|idle| - 1];
        idle := idle[..|idle| - 1];
      }
      lent := lent + {d};
    }

    /** Put: return a decompressor. The pool stays valid when it was handed
        out by this pool and reads from nothing again. */
    method Put(d: Decoder)
      requires Valid()
      modifies this
      ensures idle == old(idle) + [d] && lent == old(lent) - {d}
      ensures d in old(lent) && d.source == NoSource && d.token == token ==> Valid()
    {
      idle := idle + [d];
      lent := lent - {d};
    }
  }
}
