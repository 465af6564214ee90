/** The response side of the middleware's handler (middleware.go): whether
    a response may be compressed at all (shouldCompress), and the tail of
    Handler that lets the rest of the chain write the response, either
    straight to the connection or through a deferred-commit writer, and
    then publishes `Vary`, `Content-Encoding` and `Content-Length`. The
    rest of the chain (`c.Next()`) is modelled as the sequence of writes it
    makes. */
module Handler {
  import opened Common
  import opened Codec
  import opened Algo
  import opened Registry
  import opened Options
  import opened Negotiation
  import opened BodyWriter
  import opened BodyReader
  import opened Middleware

  const Accept := "Accept"
  const Connection := "Connection"
  const EventStream := "text/event-stream"
  const Upgrade := "Upgrade"

  // -----------------------------------------------------------------------
  // shouldCompress

  /** shouldCompress: not for an event stream or a connection upgrade, not
      when the exclude function says so, and only when some algorithm is
      enabled. `exclude` is the exclude function applied to the request. */
  function ShouldCompress(exclude: Option<bool>, reqHeader: Headers, enabled: set<string>): (r: bool)
    ensures r <==>
      && !(exists i :: OccursAt(GetHeader(reqHeader, Accept), EventStream, i))
      && !(exists i :: OccursAt(GetHeader(reqHeader, Connection), Upgrade, i))
      && exclude != Some(true)
      && enabled != {}
  {
    ContainsOccurs(GetHeader(reqHeader, Accept), EventStream);
    ContainsOccurs(GetHeader(reqHeader, Connection), Upgrade);
    if Contains(GetHeader(reqHeader, Accept), EventStream) || Contains(GetHeader(reqHeader, Connection), Upgrade) then
      false
    else if exclude == Some(true) then
      false
    else
      |enabled| > 0
  }

  /** What the options' exclude function says about a request: nothing when
      there is none. */
  function Excluded(opts: CompressOptions, reqHeader: Headers): (r: Option<bool>)
    reads opts
    ensures opts.excludeFunc.None? <==> r.None?
    ensures opts.excludeFunc.Some? ==> r == Some(opts.excludeFunc.value(reqHeader))
  {
    match opts.excludeFunc
    case None => None
    case Some(f) => Some(f(reqHeader))
  }

  // -----------------------------------------------------------------------
  // What the rest of the chain does

  /** One call the rest of the chain makes on the response writer. */
  datatype Action = WriteBody(bytes: Bytes) | WriteStatus(code: int)

  /** The bytes written, in order. */
  function Payload(acts: seq<Action>): (r: Bytes)
  {
    if |acts| == 0 then []
    else
      var last := acts[|acts| - 1];
      Payload(acts[..|acts| - 1]) + (if last.WriteBody? then last.bytes else [])
  }

  /** Some body write was made. */
  predicate Writes(acts: seq<Action>)
  {
    exists j :: 0 <= j < |acts| && acts[j].WriteBody?
  }

  /** The action sets a status gin's writer can keep: a positive code. */
  predicate SetsStatus(a: Action)
  {
    a.WriteStatus? && a.code > 0
  }

  /** The status gin's writer holds after `acts` while nothing has been
      written to it: each positive code replaces the one before. */
  function Settled(acts: seq<Action>, initial: int): (r: int)
    ensures r == initial || exists j :: 0 <= j < |acts| && SetsStatus(acts[j]) && acts[j].code == r
  {
    if |acts| == 0 then initial
    else if SetsStatus(acts[|acts| - 1]) then acts[|acts| - 1].code
    else Settled(acts[..|acts| - 1], initial)
  }

  /** With no action setting a status, the initial one stays. */
  lemma {:induction false} SettledNone(acts: seq<Action>, initial: int)
    requires forall j :: 0 <= j < |acts| ==> !SetsStatus(acts[j])
    ensures Settled(acts, initial) == initial
  {
    if |acts| > 0 {
      var init := acts[..|acts| - 1];
      assert forall j :: 0 <= j < |init| ==> init[j] == acts[j];
      SettledNone(init, initial);
    }
  }

  /** Otherwise the settled status is the code of the last action that
      sets one. */
  lemma {:induction false} SettledLast(acts: seq<Action>, initial: int, j: nat)
    requires j < |acts| && SetsStatus(acts[j])
    requires forall k :: j < k < |acts| ==> !SetsStatus(acts[k])
    ensures Settled(acts, initial) == acts[j].code
  {
    if j < |acts| - 1 {
      var init := acts[..|acts| - 1];
      assert init[j] == acts[j];
      assert forall k :: j < k < |init| ==> init[k] == acts[k];
      SettledLast(init, initial, j);
    }
  }

  /** How many actions come before the first body write. */
  function FirstWrite(acts: seq<Action>): (k: nat)
    ensures k <= |acts| && (k < |acts| ==> acts[k].WriteBody?)
    ensures forall j :: 0 <= j < k ==> acts[j].WriteStatus?
  {
    if |acts| == 0 || acts[0].WriteBody? then 0
    else
      var k := 1 + FirstWrite(acts[1..]);
      assert forall j :: 1 <= j < k ==> acts[j] == acts[1..][j - 1];
      k
  }

  /** Some body write, together with everything written before it, reached
      `threshold`: the point where a deferred-commit writer swaps. */
  predicate Reached(acts: seq<Action>, threshold: int)
  {
    exists j :: 0 <= j < |acts| && acts[j].WriteBody? && |Payload(acts[..j + 1])| >= threshold
  }

  /** How many actions, from the `i`-th on, come before the body write that
      reaches `threshold`, counted from the start. */
  function SwapFrom(acts: seq<Action>, threshold: int, i: nat): (k: nat)
    requires i <= |acts|
    ensures i <= k <= |acts|
    ensures k < |acts| ==> acts[k].WriteBody? && |Payload(acts[..k + 1])| >= threshold
    ensures forall j :: i <= j < k ==> !(acts[j].WriteBody? && |Payload(acts[..j + 1])| >= threshold)
    decreases |acts| - i
  {
    if i == |acts| then i
    else if acts[i].WriteBody? && |Payload(acts[..i + 1])| >= threshold then i
    else SwapFrom(acts, threshold, i + 1)
  }

  /** How many actions come before the body write at which a
      deferred-commit writer swaps: all of them when it never does. */
  function SwapPoint(acts: seq<Action>, threshold: int): (k: nat)
    ensures k <= |acts|
    ensures k < |acts| <==> Reached(acts, threshold)
    ensures k < |acts| ==> acts[k].WriteBody? && |Payload(acts[..k + 1])| >= threshold
    ensures forall j :: 0 <= j < k ==> !(acts[j].WriteBody? && |Payload(acts[..j + 1])| >= threshold)
  {
    SwapFrom(acts, threshold, 0)
  }

  /** How many of the chain's actions come before the first byte reaches
      gin's writer: the first body write on the plain path; on the
      compressed path, the write that swaps when the compressor is eager,
      and none before Close otherwise. */
  function CommitPoint(acts: seq<Action>, compressed: bool, eager: bool, threshold: int): (k: nat)
    ensures k <= |acts|
    ensures !compressed ==> k == FirstWrite(acts)
    ensures compressed && eager ==> k == SwapPoint(acts, threshold)
    ensures compressed && !eager ==> k == |acts|
  {
    if !compressed then FirstWrite(acts)
    else if eager then SwapPoint(acts, threshold)
    else |acts|
  }

  /** The status sent when the first byte reaches gin's writer after the
      first `k` actions: only status writes before that point count, and
      none does when the response had been written to before (`size` is
      not -1). */
  function StatusSent(acts: seq<Action>, k: nat, status: int, size: int): int
    requires k <= |acts|
  {
    if size != -1 then status else Settled(acts[..k], status)
  }

  /** The bytes written never shrink. */
  lemma {:induction false} PayloadGrows(acts: seq<Action>, j: nat)
    requires j <= |acts|
    ensures |Payload(acts[..j])| <= |Payload(acts)|
    decreases |acts| - j
  {
    if j < |acts| {
      PayloadGrows(acts, j + 1);
      assert acts[..j + 1][..j] == acts[..j];
    } else {
      assert acts[..j] == acts;
    }
  }

  /** The writer swaps exactly when some body write is made and everything
      written reaches the threshold: a response whose total size stays
      below it is never compressed. */
  lemma ReachedTotal(acts: seq<Action>, threshold: int)
    ensures Reached(acts, threshold) <==> Writes(acts) && |Payload(acts)| >= threshold
  {
    if Reached(acts, threshold) {
      var j :| 0 <= j < |acts| && acts[j].WriteBody? && |Payload(acts[..j + 1])| >= threshold;
      PayloadGrows(acts, j + 1);
    }
    if Writes(acts) && |Payload(acts)| >= threshold {
      var j :| 0 <= j < |acts| && acts[j].WriteBody?;
      var last := LastWrite(acts, j);
      PayloadAfterLastWrite(acts, last);
    }
  }

  /** The index of the last body write. */
  lemma LastWrite(acts: seq<Action>, j: nat) returns (last: nat)
    requires j < |acts| && acts[j].WriteBody?
    ensures j <= last < |acts| && acts[last].WriteBody?
    ensures forall k :: last < k < |acts| ==> acts[k].WriteStatus?
    decreases |acts| - j
  {
    if exists k :: j < k < |acts| && acts[k].WriteBody? {
      var k :| j < k < |acts| && acts[k].WriteBody?;
      last := LastWrite(acts, k);
    } else {
      last := j;
    }
  }

  /** Nothing after the last body write adds bytes. */
  lemma {:induction false} PayloadAfterLastWrite(acts: seq<Action>, last: nat)
    requires last < |acts|
    requires forall k :: last < k < |acts| ==> acts[k].WriteStatus?
    ensures Payload(acts[..last + 1]) == Payload(acts)
    decreases |acts| - last
  {
    if last + 1 < |acts| {
      var init := acts[..|acts| - 1];
      assert init[..last + 1] == acts[..last + 1];
      PayloadAfterLastWrite(init, last);
    } else {
      assert acts[..last + 1] == acts;
    }
  }

  // -----------------------------------------------------------------------
  // Content-Length

  /** `fmt.Sprintf("%v", n)` for any int (gin reports -1 for a response
      nothing was written to). */
  function FormatInt(n: int): (r: string)
    ensures n >= 0 ==> AllDigits(r) && DigitsValue(r) == n
    ensures n < 0 ==> |r| >= 2 && r[0] == '-' && AllDigits(r[1..]) && DigitsValue(r[1..]) == -n
  {
    if n >= 0 then
      FormatNatRoundTrip(n);
      FormatNat(n)
    else
      FormatNatRoundTrip(-n);
      var r := "-" + FormatNat(-n);
      assert r[1..] == FormatNat(-n);
      r
  }

  // -----------------------------------------------------------------------
  // Handler, lines 43-59

  /** One more action changes the settled status only when it sets one. */
  lemma SettledStep(acts: seq<Action>, j: nat, initial: int)
    requires j < |acts|
    ensures Settled(acts[..j + 1], initial) == if SetsStatus(acts[j]) then acts[j].code else Settled(acts[..j], initial)
  {
    assert acts[..j + 1][..j] == acts[..j];
  }

  /** The first `j` actions hold a body write exactly when the first body
      write comes before the `j`-th action. */
  lemma FirstWriteWrites(acts: seq<Action>, j: nat)
    requires j <= |acts|
    ensures Writes(acts[..j]) <==> FirstWrite(acts) < j
  {
    var k := FirstWrite(acts);
    if k < j {
      assert acts[..j][k].WriteBody?;
    }
    if Writes(acts[..j]) {
      var i :| 0 <= i < j && acts[..j][i].WriteBody?;
      assert acts[i].WriteBody?;
    }
  }

  /** Without a body write nothing is written. */
  lemma {:induction false} NoWritesNoPayload(acts: seq<Action>)
    ensures !Writes(acts) ==> Payload(acts) == []
  {
    if |acts| > 0 && !Writes(acts) {
      NoWritesNoPayload(acts[..|acts| - 1]);
    }
  }

  /** The uncompressed path: the rest of the chain writes straight to the
      response, then `Content-Length` is set to gin's count of the bytes
      written (-1 when nothing was written). The status sent is the one in
      force at the first body write. */
  method ServePlain(sink: Sink, acts: seq<Action>)
    modifies sink
    ensures sink.err == old(sink.err)
    ensures old(sink.err).None? ==> sink.body == old(sink.body) + Payload(acts)
    ensures old(sink.err).Some? ==> sink.body == old(sink.body)
    ensures sink.size ==
      if !Writes(acts) then old(sink.size)
      else Started(old(sink.size)) + (if old(sink.err).None? then |Payload(acts)| else 0)
    ensures sink.status == StatusSent(acts, FirstWrite(acts), old(sink.status), old(sink.size))
    ensures sink.header == old(sink.header)[ContentLength := FormatInt(sink.size)]
  {
    var first := FirstWrite(acts);
    var j := 0;
    assert acts[..0] == [];
    while j < |acts|
      invariant 0 <= j <= |acts|
      invariant sink.err == old(sink.err) && sink.header == old(sink.header)
      invariant PlainProgress(sink.err, sink.body, sink.size, sink.status, acts, j, first,
                              old(sink.body), old(sink.size), old(sink.status))
    {
      ghost var body, size, status := sink.body, sink.size, sink.status;
      match acts[j] {
        case WriteBody(b) =>
          var _, _ := sink.Write(b);
        case WriteStatus(code) =>
          sink.WriteHeader(code);
      }
      PlainAdvances(acts, j, first, sink.err, old(sink.body), old(sink.size), old(sink.status),
                    body, size, status, sink.body, sink.size, sink.status);
      j := j + 1;
    }
    PlainDone(acts, first, sink.err, old(sink.body), old(sink.size), old(sink.status), sink.body, sink.size, sink.status);
    sink.header := sink.header[ContentLength := FormatInt(sink.size)];
  }

  /** What the first `j` actions have done to a response written to
      directly, whose body, size and status were `body0`, `size0` and
      `status0` before them. */
  predicate PlainProgress(err: Option<string>, body: Bytes, size: int, status: int, acts: seq<Action>, j: nat, first: nat,
                          body0: Bytes, size0: int, status0: int)
    requires j <= |acts| && first <= |acts|
  {
    && body == body0 + (if err.None? then Payload(acts[..j]) else [])
    && size == (if j <= first then size0 else Started(size0) + (if err.None? then |Payload(acts[..j])| else 0))
    && status == StatusSent(acts, if j <= first then j else first, status0, size0)
  }

  /** One action written directly to the response, as `Sink.Write` and
      `Sink.WriteHeader` promise it, advances `PlainProgress` by one: the
      values before the action are unprimed, those after it primed. */
  lemma PlainAdvances(acts: seq<Action>, j: nat, first: nat, err: Option<string>, body0: Bytes, size0: int, status0: int,
                      body: Bytes, size: int, status: int, body': Bytes, size': int, status': int)
    requires j < |acts| && first == FirstWrite(acts)
    requires PlainProgress(err, body, size, status, acts, j, first, body0, size0, status0)
    requires acts[j].WriteBody? ==>
      && body' == body + (if err.None? then acts[j].bytes else [])
      && size' == Started(size) + (if err.None? then |acts[j].bytes| else 0)
      && status' == status
    requires acts[j].WriteStatus? ==>
      body' == body && size' == size && status' == if acts[j].code > 0 && size == -1 then acts[j].code else status
    ensures PlainProgress(err, body', size', status', acts, j + 1, first, body0, size0, status0)
  {
    PayloadStep(acts, j);
    PlainBodyStep(acts, j, err, body0, body, body');
    PlainSizeStep(acts, j, first, err, size0, size, size');
    PlainStatusStep(acts, j, first, size0, status0, size, status, status');
  }

  /** Once every action is written directly, the body holds the payload,
      gin's size counts it from the first body write, and the status is the
      one in force then. */
  lemma PlainDone(acts: seq<Action>, first: nat, err: Option<string>, body0: Bytes, size0: int, status0: int,
                  body: Bytes, size: int, status: int)
    requires first == FirstWrite(acts)
    requires PlainProgress(err, body, size, status, acts, |acts|, first, body0, size0, status0)
    ensures body == body0 + (if err.None? then Payload(acts) else [])
    ensures size == if !Writes(acts) then size0 else Started(size0) + (if err.None? then |Payload(acts)| else 0)
    ensures status == StatusSent(acts, first, status0, size0)
  {
    assert acts[..|acts|] == acts;
    FirstWriteWrites(acts, |acts|);
  }

  /** One more action adds its bytes, if any, to the payload. */
  lemma PayloadStep(acts: seq<Action>, j: nat)
    requires j < |acts|
    ensures Payload(acts[..j + 1]) == Payload(acts[..j]) + (if acts[j].WriteBody? then acts[j].bytes else [])
  {
    assert acts[..j + 1][..j] == acts[..j];
  }

  /** The response body after one more action written directly. */
  lemma PlainBodyStep(acts: seq<Action>, j: nat, err: Option<string>, body0: Bytes, body: Bytes, body': Bytes)
    requires j < |acts|
    requires Payload(acts[..j + 1]) == Payload(acts[..j]) + (if acts[j].WriteBody? then acts[j].bytes else [])
    requires body == body0 + (if err.None? then Payload(acts[..j]) else [])
    requires body' == body + (if err.None? && acts[j].WriteBody? then acts[j].bytes else [])
    ensures body' == body0 + (if err.None? then Payload(acts[..j + 1]) else [])
  {
    if err.None? && acts[j].WriteBody? {
      assert body0 + Payload(acts[..j]) + acts[j].bytes == body0 + (Payload(acts[..j]) + acts[j].bytes);
    }
  }

  /** gin's size after one more action written directly. */
  lemma PlainSizeStep(acts: seq<Action>, j: nat, first: nat, err: Option<string>, size0: int, size: int, size': int)
    requires j < |acts| && first == FirstWrite(acts)
    requires Payload(acts[..j + 1]) == Payload(acts[..j]) + (if acts[j].WriteBody? then acts[j].bytes else [])
    requires size == (if j <= first then size0 else Started(size0) + (if err.None? then |Payload(acts[..j])| else 0))
    requires acts[j].WriteBody? ==> size' == Started(size) + (if err.None? then |acts[j].bytes| else 0)
    requires acts[j].WriteStatus? ==> size' == size
    ensures size' == (if j + 1 <= first then size0 else Started(size0) + (if err.None? then |Payload(acts[..j + 1])| else 0))
  {
    if j == first {
      FirstWriteWrites(acts, j);
      NoWritesNoPayload(acts[..j]);
    }
  }

  /** The status held after one more action written directly. */
  lemma PlainStatusStep(acts: seq<Action>, j: nat, first: nat, size0: int, status0: int, size: int, status: int, status': int)
    requires j < |acts| && first == FirstWrite(acts)
    requires j <= first ==> size == size0
    requires j > first ==> size >= 0
    requires status == StatusSent(acts, if j <= first then j else first, status0, size0)
    requires acts[j].WriteBody? ==> status' == status
    requires acts[j].WriteStatus? ==> status' == if acts[j].code > 0 && size == -1 then acts[j].code else status
    ensures status' == StatusSent(acts, if j + 1 <= first then j + 1 else first, status0, size0)
  {
    SettledStep(acts, j, status0);
  }

  /** A body write extends what has reached the threshold by itself. */
  lemma ReachedStep(acts: seq<Action>, j: nat, threshold: int)
    requires j < |acts|
    ensures Reached(acts[..j + 1], threshold) <==>
      Reached(acts[..j], threshold) || (acts[j].WriteBody? && |Payload(acts[..j + 1])| >= threshold)
  {
    var a, b := acts[..j + 1], acts[..j];
    if Reached(a, threshold) {
      var k :| 0 <= k < |a| && a[k].WriteBody? && |Payload(a[..k + 1])| >= threshold;
      if k < j {
        assert a[..k + 1] == acts[..k + 1] == b[..k + 1];
        assert b[k] == a[k];
      } else {
        assert a[..k + 1] == a && a[k] == acts[j];
      }
    }
    if Reached(b, threshold) {
      var k :| 0 <= k < |b| && b[k].WriteBody? && |Payload(b[..k + 1])| >= threshold;
      assert a[..k + 1] == acts[..k + 1] == b[..k + 1];
      assert a[k] == b[k];
    }
    if acts[j].WriteBody? && |Payload(a)| >= threshold {
      assert a[..j + 1] == a && a[j] == acts[j];
    }
  }

  /** The compressed path: the rest of the chain writes through a
      deferred-commit writer with the configured threshold and algorithm;
      the writer is closed; when it swapped, `Vary` and `Content-Encoding`
      are published; `Content-Length` is set to the writer's count of
      uncompressed bytes in every case. Without a transport failure the
      writer swaps exactly when the writes reached the threshold, and the
      response then carries all of them: copied unchanged when it did not
      swap, given in order to the compressor, which is finished and back in
      its pool, when it did. */
  method ServeCompressed(sink: Sink, threshold: int, algo: Algorithm, acts: seq<Action>) returns (rw: RespWriter)
    requires algo.Valid()
    modifies sink, algo.compressorPool, set e | e in algo.compressorPool.idle
    ensures fresh(rw) && rw.sink == sink && rw.algo == algo && rw.threshold == threshold
    ensures algo.Valid() && rw.Valid()
    ensures sink.header ==
      (if rw.Swapped() then old(sink.header)[Vary := AcceptEncoding][ContentEncoding := algo.token] else old(sink.header))
        [ContentLength := FormatInt(|rw.accepted|)]
    ensures sink.status == StatusSent(acts, CommitPoint(acts, true, rw.Eager(), threshold), old(sink.status), old(sink.size))
    ensures old(sink.err).None? || !rw.Eager() ==> rw.accepted == Payload(acts)
    ensures old(sink.err).None? || !rw.Eager() ==> (rw.Swapped() <==> Reached(acts, threshold))
    ensures old(sink.err).None? && !rw.Swapped() ==> sink.body == old(sink.body) + Payload(acts)
    ensures rw.Swapped() ==>
      && rw.compressor.c && rw.compressor.w.streamed == rw.accepted
      && rw.compressor.w.target == Discard && rw.compressor.w in algo.compressorPool.idle
  {
    rw := new RespWriter(sink, threshold, algo);
    Run(rw, acts);
    Publish(rw);
  }

  /** The end of the compressed path: close the writer, publish `Vary` and
      `Content-Encoding` when it swapped, and `Content-Length` always. */
  method Publish(rw: RespWriter)
    requires rw.Valid() && rw.algo.Valid() && rw.direct == []
    requires rw.Swapped() ==> !rw.compressor.c
    requires rw.compressor != null ==> rw.compressor.p == rw.algo.compressorPool
    modifies rw, rw.sink`header, rw.sink`body, rw.sink`size
    modifies if rw.compressor != null then {rw.compressor, rw.compressor.w, rw.algo.compressorPool} else {}
    ensures rw.Valid() && rw.algo.Valid()
    ensures rw.accepted == old(rw.accepted) && rw.Swapped() == old(rw.Swapped())
    ensures rw.sink.header ==
      (if rw.Swapped() then old(rw.sink.header)[Vary := AcceptEncoding][ContentEncoding := rw.algo.token] else old(rw.sink.header))
        [ContentLength := FormatInt(|rw.accepted|)]
    ensures !rw.Swapped() && old(rw.sink.err).None? ==> rw.sink.body == old(rw.sink.body) + rw.accepted
    ensures rw.Swapped() ==>
      && rw.compressor.c && rw.compressor.w.streamed == rw.accepted
      && rw.compressor.w.target == Discard && rw.compressor.w in rw.algo.compressorPool.idle
  {
    assert rw.accepted[|rw.direct|..] == rw.accepted;
    var _ := rw.Close();
    if rw.Swapped() {
      rw.sink.header := rw.sink.header[Vary := AcceptEncoding][ContentEncoding := rw.algo.token];
    }
    rw.sink.header := rw.sink.header[ContentLength := FormatInt(rw.Size())];
  }

  /** `c.Next()` over a deferred-commit writer that nothing has been
      written to yet: each action goes to the writer, in order. Only an
      eager compressor writes to the response, from the swap on; the
      status is the one in force at that point. */
  method Run(rw: RespWriter, acts: seq<Action>)
    requires rw.Valid() && rw.algo.Valid()
    requires rw.accepted == [] && rw.direct == [] && rw.buf == Some([]) && rw.compressor == null
    modifies rw, rw.sink`header, rw.sink`status, rw.sink`body, rw.sink`size
    modifies rw.algo.compressorPool, set e | e in rw.algo.compressorPool.idle
    ensures rw.Valid() && rw.algo.Valid() && rw.direct == []
    ensures rw.sink.header == old(rw.sink.header) || rw.sink.header == old(rw.sink.header) - {ContentLength}
    ensures rw.sink.body == old(rw.sink.body)
    ensures rw.sink.status ==
      StatusSent(acts, CommitPoint(acts, true, rw.Eager(), rw.threshold), old(rw.sink.status), old(rw.sink.size))
    ensures old(rw.sink.err).None? || !rw.Eager() ==>
      rw.accepted == Payload(acts) && (rw.Swapped() <==> Reached(acts, rw.threshold))
    ensures rw.Swapped() ==> !rw.compressor.c
    ensures rw.compressor != null ==>
      && fresh(rw.compressor) && rw.compressor.p == rw.algo.compressorPool
      && (fresh(rw.compressor.w) || rw.compressor.w in old(rw.algo.compressorPool.idle))
    ensures forall e :: e in rw.algo.compressorPool.idle ==> e in old(rw.algo.compressorPool.idle)
  {
    var commit := CommitPoint(acts, true, rw.Eager(), rw.threshold);
    assert acts[..0] == [];
    var j := 0;
    while j < |acts|
      invariant 0 <= j <= |acts|
      invariant rw.Valid() && rw.algo.Valid() && rw.direct == []
      invariant rw.sink.header == old(rw.sink.header) || rw.sink.header == old(rw.sink.header) - {ContentLength}
      invariant rw.sink.body == old(rw.sink.body)
      invariant Progress(rw, acts, j, commit, old(rw.sink.status), old(rw.sink.size), old(rw.sink.err))
      invariant rw.Swapped() ==> !rw.compressor.c
      invariant rw.compressor != null ==>
        && fresh(rw.compressor) && rw.compressor.p == rw.algo.compressorPool
        && (fresh(rw.compressor.w) || rw.compressor.w in old(rw.algo.compressorPool.idle))
      invariant forall e :: e in rw.algo.compressorPool.idle ==> e in old(rw.algo.compressorPool.idle)
    {
      Step(rw, acts, j, commit, old(rw.sink.status), old(rw.sink.size), old(rw.sink.err));
      j := j + 1;
    }
    assert acts[..j] == acts;
  }

  /** What the first `j` actions have done through a deferred-commit
      writer, `commit` of them coming before the first byte reaches the
      response, whose status, size and transport state were `status0`,
      `size0` and `err0` before them. */
  ghost predicate Progress(rw: RespWriter, acts: seq<Action>, j: nat, commit: nat, status0: int, size0: int, err0: Option<string>)
    requires j <= |acts| && commit <= |acts|
    reads rw, rw.sink
  {
    ProgressOf(rw.sink.err, rw.sink.size, rw.sink.status, rw.Eager(), rw.threshold, rw.Swapped(), rw.accepted,
               acts, j, commit, status0, size0, err0)
  }

  /** `Progress` over the writer's and the response's observable state:
      transport failure, gin's size and status, the kind of compressor,
      the threshold, whether the writer swapped, and the bytes it
      accepted. */
  predicate ProgressOf(err: Option<string>, size: int, status: int, eager: bool, threshold: int, swapped: bool, accepted: Bytes,
                       acts: seq<Action>, j: nat, commit: nat, status0: int, size0: int, err0: Option<string>)
    requires j <= |acts| && commit <= |acts|
  {
    && err == err0
    && (j <= commit ==> size == size0)
    && (j > commit ==> size >= 0)
    && (eager && j <= commit ==> !swapped && accepted == Payload(acts[..j]))
    && status == StatusSent(acts, if j <= commit then j else commit, status0, size0)
    && (err0.None? || !eager ==> accepted == Payload(acts[..j]) && (swapped <==> Reached(acts[..j], threshold)))
  }

  /** A body write through the writer, as `RespWriter.Write` promises it
      (over a writer nothing was copied out of), advances `ProgressOf`
      by one action: the values before the write are unprimed, those after
      it primed. */
  lemma WriteAdvances(acts: seq<Action>, j: nat, commit: nat, status0: int, size0: int, err0: Option<string>,
                      err: Option<string>, status: int, eager: bool, threshold: int, closed: bool,
                      size: int, swapped: bool, accepted: Bytes,
                      size': int, swapped': bool, accepted': Bytes, st: Status)
    requires j < |acts| && acts[j].WriteBody? && commit == CommitPoint(acts, true, eager, threshold)
    requires ProgressOf(err, size, status, eager, threshold, swapped, accepted, acts, j, commit, status0, size0, err0)
    requires swapped ==> !closed
    requires st == Ok ==> accepted' == accepted + acts[j].bytes
    requires st != Ok ==> accepted' == accepted
    requires swapped ==> swapped'
    requires !(swapped || |accepted| + |acts[j].bytes| >= threshold) ==> st == Ok && !swapped'
    requires (swapped || |accepted| + |acts[j].bytes| >= threshold) && !swapped && !(err.Some? && eager && accepted != []) ==> swapped'
    requires (swapped || |accepted| + |acts[j].bytes| >= threshold) && !(swapped && closed) ==>
      (st == Ok <==> !(err.Some? && eager))
    requires !(eager && (swapped || |accepted| + |acts[j].bytes| >= threshold)) ==> size' == size
    requires eager && (swapped || |accepted| + |acts[j].bytes| >= threshold) && !swapped ==> size' == Started(size)
    requires size' == size || size' == Started(size)
    ensures ProgressOf(err, size', status, eager, threshold, swapped', accepted', acts, j + 1, commit, status0, size0, err0)
  {
    PayloadStep(acts, j);
    ReachedStep(acts, j, threshold);
    SettledStep(acts, j, status0);
  }

  /** One action of the chain through the writer, a body write or a
      status write, extends what the actions so far have done. */
  method Step(rw: RespWriter, acts: seq<Action>, j: nat, commit: nat, ghost status0: int, ghost size0: int, ghost err0: Option<string>)
    requires j < |acts| && commit == CommitPoint(acts, true, rw.Eager(), rw.threshold)
    requires rw.Valid() && rw.algo.Valid() && rw.direct == []
    requires rw.Swapped() ==> !rw.compressor.c
    requires Progress(rw, acts, j, commit, status0, size0, err0)
    modifies rw, rw.sink`header, rw.sink`status, rw.sink`body, rw.sink`size
    modifies rw.algo.compressorPool, set e | e in rw.algo.compressorPool.idle
    modifies if rw.compressor != null then {rw.compressor.w} else {}
    ensures rw.Valid() && rw.algo.Valid() && rw.direct == []
    ensures rw.Swapped() ==> !rw.compressor.c
    ensures Progress(rw, acts, j + 1, commit, status0, size0, err0)
    ensures rw.sink.header == old(rw.sink.header) - {ContentLength} && rw.sink.body == old(rw.sink.body)
    ensures rw.compressor != old(rw.compressor) ==>
      && rw.compressor != null && fresh(rw.compressor) && rw.compressor.p == rw.algo.compressorPool
      && (fresh(rw.compressor.w) || rw.compressor.w in old(rw.algo.compressorPool.idle))
    ensures forall e :: e in rw.algo.compressorPool.idle ==> e in old(rw.algo.compressorPool.idle)
  {
    if acts[j].WriteBody? {
      WriteStep(rw, acts, j, commit, status0, size0, err0);
    } else {
      StatusStep(rw, acts, j, commit, status0, size0, err0);
    }
  }

  /** A body write of the chain through the writer extends what the
      actions so far have done. */
  method WriteStep(rw: RespWriter, acts: seq<Action>, j: nat, commit: nat, ghost status0: int, ghost size0: int, ghost err0: Option<string>)
    requires j < |acts| && acts[j].WriteBody? && commit == CommitPoint(acts, true, rw.Eager(), rw.threshold)
    requires rw.Valid() && rw.algo.Valid() && rw.direct == []
    requires rw.Swapped() ==> !rw.compressor.c
    requires Progress(rw, acts, j, commit, status0, size0, err0)
    modifies rw, rw.sink`header, rw.sink`body, rw.sink`size
    modifies rw.algo.compressorPool, set e | e in rw.algo.compressorPool.idle
    modifies if rw.compressor != null then {rw.compressor.w} else {}
    ensures rw.Valid() && rw.algo.Valid() && rw.direct == []
    ensures rw.Swapped() ==> !rw.compressor.c
    ensures Progress(rw, acts, j + 1, commit, status0, size0, err0)
    ensures rw.sink.header == old(rw.sink.header) - {ContentLength} && rw.sink.body == old(rw.sink.body)
    ensures rw.compressor != old(rw.compressor) ==>
      && rw.compressor != null && fresh(rw.compressor) && rw.compressor.p == rw.algo.compressorPool
      && (fresh(rw.compressor.w) || rw.compressor.w in old(rw.algo.compressorPool.idle))
    ensures forall e :: e in rw.algo.compressorPool.idle ==> e in old(rw.algo.compressorPool.idle)
  {
    ghost var size, swapped, accepted, closed := rw.sink.size, rw.Swapped(), rw.accepted, rw.Swapped() && rw.compressor.c;
    var _, st := rw.Write(acts[j].bytes);
    WriteAdvances(acts, j, commit, status0, size0, err0, rw.sink.err, rw.sink.status, rw.Eager(), rw.threshold, closed,
                  size, swapped, accepted, rw.sink.size, rw.Swapped(), rw.accepted, st);
  }

  /** A status write of the chain through the writer extends what the
      actions so far have done. */
  method StatusStep(rw: RespWriter, acts: seq<Action>, j: nat, commit: nat, ghost status0: int, ghost size0: int, ghost err0: Option<string>)
    requires j < |acts| && acts[j].WriteStatus? && commit == CommitPoint(acts, true, rw.Eager(), rw.threshold)
    requires Progress(rw, acts, j, commit, status0, size0, err0)
    modifies rw.sink`header, rw.sink`status
    ensures Progress(rw, acts, j + 1, commit, status0, size0, err0)
    ensures rw.sink.header == old(rw.sink.header) - {ContentLength}
  {
    PayloadStep(acts, j);
    ReachedStep(acts, j, rw.threshold);
    SettledStep(acts, j, status0);
    rw.WriteHeader(acts[j].code);
  }

  /** `algo` is what selectAlgorithm picks from `header` among the tokens
      of `allowed`: nothing when no entry is acceptable, otherwise the
      token of a best acceptable entry. */
  ghost predicate Chosen(header: string, allowed: map<string, int>, algo: string)
  {
    var acc := Acceptable(header, allowed);
    && (algo == "" <==> acc == [])
    && (acc != [] ==> exists i :: IsBest(acc, i, allowed) && acc[i].encoding == algo)
  }

  /** The choice at the head of Handler's tail: the algorithm
      `Accept-Encoding` selects among the enabled ones, and whether the
      response is compressed with it. */
  method Choose(exclude: Option<bool>, reqHeader: Headers, allowed: map<string, int>) returns (algo: string, compress: bool)
    requires allowed.Keys <= Tokens
    ensures Chosen(GetHeader(reqHeader, AcceptEncoding), allowed, algo)
    ensures algo != "" ==> algo in allowed
    ensures compress <==> algo != "" && ShouldCompress(exclude, reqHeader, allowed.Keys)
  {
    var qErrors;
    algo, qErrors := SelectAlgorithm(GetHeader(reqHeader, AcceptEncoding), allowed);
    compress := algo != "" && ShouldCompress(exclude, reqHeader, allowed.Keys);
  }

  /** The tail of Handler: serve the response plainly when no algorithm
      was chosen or it must not be compressed, otherwise through a
      deferred-commit writer for the chosen algorithm with the configured
      threshold. `rw` is that writer, or null on the plain path. */
  method Respond(opts: CompressOptions, reg: Registry, reqHeader: Headers, sink: Sink, acts: seq<Action>)
    returns (algo: string, rw: RespWriter?)
    requires reg.Valid()
    modifies sink, reg.Encoders()
    ensures Chosen(GetHeader(reqHeader, AcceptEncoding), old(reg.EnabledPriorities()), algo)
    ensures rw == null <==> algo == "" || !ShouldCompress(old(Excluded(opts, reqHeader)), reqHeader, old(reg.Enabled()))
    ensures sink.status ==
      StatusSent(acts, CommitPoint(acts, rw != null, rw != null && rw.Eager(), old(opts.minCompressBytes)), old(sink.status), old(sink.size))
    ensures rw == null ==>
      && (old(sink.err).None? ==> sink.body == old(sink.body) + Payload(acts))
      && sink.header == old(sink.header)[ContentLength := FormatInt(sink.size)]
    ensures rw != null ==>
      && fresh(rw) && rw.Valid() && rw.algo == reg.Algorithms()[algo] && rw.threshold == old(opts.minCompressBytes)
      && sink.header ==
           (if rw.Swapped() then old(sink.header)[Vary := AcceptEncoding][ContentEncoding := algo] else old(sink.header))
             [ContentLength := FormatInt(|rw.accepted|)]
      && (old(sink.err).None? || !rw.Eager() ==> rw.accepted == Payload(acts) && (rw.Swapped() <==> Reached(acts, rw.threshold)))
      && (old(sink.err).None? && !rw.Swapped() ==> sink.body == old(sink.body) + Payload(acts))
  {
    var allowed := reg.EnabledPriorities();
    var compress;
    algo, compress := Choose(Excluded(opts, reqHeader), reqHeader, allowed);
    if !compress {
      ServePlain(sink, acts);
      return algo, null;
    }
    var a := reg.Algorithms()[algo];
    reg.Covers(algo);
    rw := ServeCompressed(sink, opts.minCompressBytes, a, acts);
  }

  /** Handler: decode the request body first, then serve the response.
      The algorithm is chosen from the `Accept-Encoding` the request came
      with, which decoding leaves as it was. */
  method Handle(opts: CompressOptions, reg: Registry, req: Request, sink: Sink, acts: seq<Action>)
    returns (br: CompressedBodyReader?, algo: string, rw: RespWriter?)
    requires reg.Valid()
    modifies req, reg.DecoderPools(), IdleIn(reg.DecoderPools()), sink, reg.Encoders()
    ensures Chosen(GetHeader(old(req.header), AcceptEncoding), old(reg.EnabledPriorities()), algo)
    ensures br != null ==>
      && req.body == Some(br)
      && |br.decomps| == Peeled(ContentEncodings(old(req.header)), opts.maxDecodeSteps) >= 1
      && req.header == Rewritten(old(req.header), ContentEncodings(old(req.header)), |br.decomps|)
    ensures br == null ==> req.header == old(req.header) && req.body == old(req.body)
    ensures rw == null <==> algo == "" || !ShouldCompress(Excluded(opts, req.header), req.header, old(reg.Enabled()))
    ensures sink.status ==
      StatusSent(acts, CommitPoint(acts, rw != null, rw != null && rw.Eager(), old(opts.minCompressBytes)), old(sink.status), old(sink.size))
    ensures rw == null && old(sink.err).None? ==> sink.body == old(sink.body) + Payload(acts)
    ensures rw == null ==> sink.header == old(sink.header)[ContentLength := FormatInt(sink.size)]
    ensures rw != null ==>
      (sink.header ==
         (if rw.Swapped() then old(sink.header)[Vary := AcceptEncoding][ContentEncoding := algo] else old(sink.header))
           [ContentLength := FormatInt(|rw.accepted|)])
    ensures rw != null && (old(sink.err).None? || !rw.Eager()) ==>
      rw.accepted == Payload(acts) && (rw.Swapped() <==> Reached(acts, old(opts.minCompressBytes)))
    ensures rw != null && old(sink.err).None? && !rw.Swapped() ==> sink.body == old(sink.body) + Payload(acts)
  {
    br := Decode(opts, reg, req);
    ghost var decoded, body, steps := req.header, req.body, opts.maxDecodeSteps;
    algo, rw := Respond(opts, reg, req.header, sink, acts);
    assert req.header == decoded && req.body == body && opts.maxDecodeSteps == steps;
  }

  /** decompressRequest as the handler sees it: the registry stays in
      order, its descriptors and compressor pools are untouched, and only
      `Content-Length` and `Content-Encoding` of the request change. */
  method Decode(opts: CompressOptions, reg: Registry, req: Request) returns (br: CompressedBodyReader?)
    requires reg.Valid()
    modifies req, reg.DecoderPools(), IdleIn(reg.DecoderPools())
    ensures reg.Valid() && unchanged(reg.EncoderPools()) && unchanged(reg.Algorithms().Values)
    ensures br != null ==>
      && req.body == Some(br)
      && |br.decomps| == Peeled(ContentEncodings(old(req.header)), opts.maxDecodeSteps) >= 1
      && req.header == Rewritten(old(req.header), ContentEncodings(old(req.header)), |br.decomps|)
    ensures br == null ==> req.header == old(req.header) && req.body == old(req.body)
    ensures GetHeader(req.header, AcceptEncoding) == GetHeader(old(req.header), AcceptEncoding)
  {
    br := DecompressRequest(opts, reg, req);
  }
}
