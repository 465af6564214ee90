# gin-compress, modelled in Dafny

A model of the compression middleware for the gin web framework in
aurowora/compress, with proofs about it. For each request the middleware:

- **Decodes the request body.** It undoes the codings listed in
  `Content-Encoding`, last applied first, up to `maxDecodeSteps` of them and
  stopping at the first unsupported one. It then rewrites `Content-Length`
  and `Content-Encoding` to match what is left.
- **Chooses a response algorithm** from `Accept-Encoding`. The weight of
  each entry decides first. Among entries of equal weight, the configured
  priority decides.
- **Defers the commitment to compress.** The response is buffered until the
  bytes written reach `minCompressBytes`. At that point it is swapped to a
  compressor that writes to the network. Below the threshold, the buffer is
  copied out unchanged when the writer is closed. Only after the rest of
  the chain has returned and the writer is closed does the handler set
  `Vary` and `Content-Encoding` (when it swapped) and `Content-Length` in
  gin's header map.

Four algorithms are supported: `zstd`, `br`, `gzip` and `deflate`.
Compressors are pooled. Decompressors are pooled for zstd and br only.

## Layout

- **Source-shaped modules:**
  - `Common`: bytes, headers and the string functions the middleware uses.
  - `Codec`: stand-ins for the codec libraries, the response writer and
    `sync.Pool`.
  - `Algo`: algo.go.
  - `Zstd`, `Brotli`, `Gzip`, `Deflate` and `GzFlate`: one file each.
  - `Registry`: the `algorithms` map.
  - `Options`: options.go.
  - `Negotiation`: selectAlgorithm.
  - `BodyWriter`: bodyWriter.go.
  - `BodyReader`: bodyReader.go.
  - `Middleware`: decompressRequest.
  - `Handler`: Handler and shouldCompress.
- **Worked examples:** `Scenarios` covers the requests the repository's
  tests exercise.
- **Mutable state is modelled as classes:**
  - the algorithm descriptors, the pools, the response writer, the
    request and the options;
  - loops become methods with invariants, proved against specification
    functions (`Acceptable`, `Peeled`, `Rewritten`, `Payload`, `Reached`,
    `Settled`, `CommitPoint`);
  - panics are a returned `Status.Panic`.
- **What the rest of the gin chain does** with the response writer is a
  parameter: a sequence of `Action`s (body writes and status writes).
- **gin's response writer** keeps a status code only while nothing has
  been written to it, and ignores codes that are not positive. The status
  sent is the one in force when the first byte reaches it: at the first
  body write on the plain path, at the swap for gzip and deflate, at Close
  for br and zstd.
- **Codec libraries are opaque.**
  - An encoder accumulates its input. The gzip and zlib encoders are eager:
    their first write after a reset writes the stream header to the
    response. Over a failed connection that write fails, and every later
    one too. The brotli and zstd encoders hold their output until Close.
  - A decoder carries a sticky error that its `Read` and `Close` report.

## Model

| member | source | states |
|---|---|---|
| Common.GetHeader | middleware.go:118 | `Header.Get`: the stored value, or "" when the key is absent |
| Common.Split | middleware.go:68 | `strings.Split` yields at least one piece and no piece holds the separator |
| Common.JoinSplit | middleware.go:68 | joining the pieces of a split with the separator gives the string back |
| Common.SplitJoin | middleware.go:101 | splitting a join of separator-free pieces gives the pieces back |
| Common.RemoveSpaces | middleware.go:68 | `strings.ReplaceAll(s, " ", "")` leaves no space and never lengthens |
| Common.RemoveSpacesJoin | middleware.go:118 | removing spaces from a ", "-join of space-free pieces gives their ","-join |
| Common.ToLower | middleware.go:118 | lower-casing keeps the length and lower-cases each character |
| Common.ContainsOccurs | middleware.go:171-172 | `strings.Contains` holds exactly when the substring occurs at some index (both directions) |
| Common.FormatNat | middleware.go:45 | `%v` of a non-negative int is a non-empty digit string |
| Common.FormatNatRoundTrip | middleware.go:45 | reading the formatted digits back gives the number |
| Codec.Sink.constructor | bodyWriter.go:21 | a fresh response: status 200, empty body, size -1 (nothing written yet) |
| Codec.Sink.Write | bodyWriter.go:81 | a healthy connection appends all bytes; a failed one returns its error and appends nothing; size starts counting at 0 |
| Codec.Sink.WriteHeader | bodyWriter.go:97 | gin's WriteHeader: a positive code replaces the status while nothing has been written; a code that is not positive, or any code after the first byte, is ignored |
| Codec.Encoder.constructor | zstd.go:33-40 | a new compressor at the configured level writes to Discard with no input and has written no stream header |
| Codec.Encoder.Write | algo.go:82 | an eager (gzip, zlib) compressor's first write after a reset writes its header to the response, committing gin's status, and over a failed connection fails, then and on every later write, appending nothing; otherwise the whole write is taken; the response body is never written |
| Codec.Encoder.Close | algo.go:94 | closing finishes the stream with all input, writes to the response (committing its status) and reports the connection's failure |
| Codec.Encoder.Reset | algo.go:93 | reset rebinds the target and clears the input, the finished flag and the header flag |
| Codec.Decoder.constructor | zstd.go:79 | a new decompressor with its source, nothing pending, no error |
| Codec.Decoder.Read | algo.go:108 | reads at most `max` pending bytes in order, or reports the sticky error |
| Codec.Decoder.Close | bodyReader.go:24 | closing reports the decoder's sticky error, or nil |
| Codec.Decoder.Reset | algo.go:118 | reset rebinds the source and clears pending bytes and error |
| Codec.EncoderPool.constructor | zstd.go:89-91 | an empty pool, nothing lent |
| Codec.EncoderPool.Get | zstd.go:49 | returns the last idle compressor, or a fresh one of the pool's kind at the current level; it is now lent |
| Codec.EncoderPool.Put | algo.go:92 | appends to the idle list; a lent compressor bound to Discard keeps the pool valid |
| Codec.DecoderPool.constructor | zstd.go:77-86 | an empty pool, nothing lent |
| Codec.DecoderPool.Get | zstd.go:59 | returns the last idle decompressor, or a fresh one; it is now lent |
| Codec.DecoderPool.Put | algo.go:117 | appends to the idle list; a lent, detached decompressor keeps the pool valid |
| Algo.WrappedWriter.constructor | algo.go:71-75 | the wrapper holds the compressor and its pool, open |
| Algo.WrappedWriter.Write | algo.go:77-83 | after Close, a write panics and changes nothing; otherwise it forwards the write, with the compressor's header, failure and commit effects |
| Algo.WrappedWriter.Close | algo.go:85-95 | a second Close panics and returns nothing to the pool; the first finishes the stream (the response counts as written), resets to Discard and returns the compressor to its pool |
| Algo.WrappedReader.constructor | algo.go:97-101 | the wrapper holds the decompressor and its pool, open |
| Algo.WrappedReader.Read | algo.go:103-109 | after Close, a read panics; otherwise it forwards the read |
| Algo.WrappedReader.Close | algo.go:111-120 | always nil; the first Close detaches the decompressor and returns it to the pool, a later one does nothing |
| Algo.CloseLayer | bodyReader.go:24 | closing one layer gives the result its state determines and returns a pooled decompressor once |
| Algo.ReadLayer | bodyReader.go:19 | reading one layer: panic when closed, the sticky error, or a prefix of the pending bytes |
| Algo.Algorithm.constructor | zstd.go:70-94 | a descriptor, a fresh empty compressor pool of eager or buffering compressors and, when pooled, a fresh empty decompressor pool |
| Algo.Algorithm.GetWriter | zstd.go:48-56 | a fresh open wrapper around a pooled compressor bound to the response, with no header written yet; the pool loses that compressor (the same in brotli.go:41-49, gzip.go:39-47, deflate.go:39-47) |
| Algo.Algorithm.GetPlainReader | gzip.go:49-59 | gzip and deflate: a fresh decompressor reading from the given source, with no error (the same in deflate.go:49-56) |
| Algo.Algorithm.GetReader | zstd.go:58-68 | a decompressor reading from the given source: taken from the pool for zstd and br, fresh for gzip and deflate (gzip.go:49-59) |
| Zstd.NewAlgorithm | zstd.go:70-94 | zstd: enabled, default level, priority 100, pooled decompressor, buffering compressor |
| Brotli.NewAlgorithm | brotli.go:63-82 | br: enabled, level 6, priority 400, pooled decompressor, buffering compressor |
| Gzip.NewAlgorithm | gzip.go:61-75 | gzip: enabled, level -1, priority 300, no decompressor pool, eager compressor |
| Deflate.NewAlgorithm | deflate.go:58-71 | deflate: enabled, level -1, priority 200, no decompressor pool, eager compressor |
| Registry.DefaultPriorities | zstd.go:72-76 | all four are enabled by default, with distinct priorities ordered zstd < deflate < gzip < br |
| Registry.Registry.Algorithms | algo.go:37-42 | the map's keys are exactly the four tokens |
| Registry.Registry.DecoderPools | zstd.go:77-86 | the decompressor pools are zstd's and br's |
| Registry.Registry.PoolsApart | algo.go:37-42 | different algorithms have different pools and share no idle instance |
| Registry.Registry.Covers | middleware.go:49 | the algorithm named by a token is valid, carries that token, and its compressor pool is in the response-side frame |
| Registry.Registry.constructor | algo.go:37-42 | at start every algorithm holds its default descriptor and every pool is empty |
| Registry.Registry.Enabled | algo.go:44-54 | a token is enabled exactly when its descriptor says so |
| Registry.Registry.EnabledPriorities | middleware.go:159-160 | the priorities of exactly the enabled tokens |
| Registry.Registry.GetEnabledAlgorithms | algo.go:44-54 | a new map holding exactly the enabled entries, each bound to its algorithm |
| Options.CompressOptions.constructor | options.go:42-51 | defaults: an exclude function that never excludes, threshold 512, one decode step, decoding on |
| Options.CompressOptions.WithExcludeFunc | options.go:88-92 | sets the exclude function |
| Options.CompressOptions.WithMinCompressBytes | options.go:96-100 | sets the threshold |
| Options.CompressOptions.WithMaxDecodeSteps | options.go:103-111 | fewer than one step panics and changes nothing; otherwise sets the limit; the options stay valid |
| Options.CompressOptions.WithDecompressBody | options.go:114-118 | decoding is skipped exactly when not requested |
| Options.WithAlgo | options.go:54-58 | an unknown name panics (nil map entry); a known one has only its `enable` changed |
| Options.WithCompressLevel | options.go:72-76 | as WithAlgo, for `compressLevel` |
| Options.WithPriority | options.go:80-84 | as WithAlgo, for `priority` |
| Negotiation.Normalize | middleware.go:118 | the header without spaces and upper case, no longer than before |
| Negotiation.ParseQSign | middleware.go:136 | a leading `+` is ignored and a leading `-` negates the weight |
| Negotiation.ParseUnsignedDecimal | middleware.go:136-140 | `i.f` parses to i*1000 plus the first three fraction digits (truncation of q*1000) |
| Negotiation.ParseUnsignedInteger | middleware.go:136-140 | a digit string parses to its value times 1000 |
| Negotiation.Frac3Value | middleware.go:140 | the three-digit truncation lies within one thousandth below the exact fraction |
| Negotiation.FormatQRoundTrip | middleware.go:136-140 | every weight written with at most three decimals parses back to exactly its thousandths |
| Negotiation.ParseEntry | middleware.go:129-142 | an entry's token holds no `;`; a weight that fails to parse leaves the default 1000 |
| Negotiation.EntryPlain | middleware.go:129-133 | an entry without parameters gets weight 1000 |
| Negotiation.EntryWeighted | middleware.go:135-142 | `t;q=w` gets w's weight when w parses, else 1000 and a recorded error |
| Negotiation.Candidates | middleware.go:128-148 | survivors are allowed tokens with positive weight, at most one per entry |
| Negotiation.CandidatesMembership | middleware.go:144-147 | an entry survives exactly when it parses to an allowed token with positive weight (both directions) |
| Negotiation.Acceptable | middleware.go:118-148 | every survivor of a header is allowed and has positive weight |
| Negotiation.SelectAlgorithm | middleware.go:117-168 | "" exactly when nothing survives; otherwise the token of a survivor with the highest weight and, among those, the highest priority; errors counted per unparsable weight |
| Negotiation.ParseEncodings | middleware.go:126-148 | the loop builds exactly the survivors and counts the parse errors |
| Negotiation.PickBest | middleware.go:154-167 | the element left last by the sort is a best survivor |
| Negotiation.BestAppeared | middleware.go:145-167 | the chosen survivor came from an entry of the normalised header |
| Negotiation.BestUnique | middleware.go:154-167 | with distinct priorities all best survivors name the same token, so the unstable sort cannot change the answer |
| BodyReader.FirstFailure | bodyReader.go:22-29 | the index of the first failing close, all earlier ones succeeding |
| BodyReader.ClosedAsWritten | bodyReader.go:22-29 | the number of layers the loop as written closes, never more than there are |
| BodyReader.AsWrittenLeavesLayersOpen | bodyReader.go:22-29 | the loop leaves a layer unclosed exactly when a layer other than the last fails to close |
| BodyReader.BadChecksumInnerLayer | bodyReader.go:22-29 | with a failing inner zlib layer, only one of two layers is closed |
| BodyReader.TakeLayer | zstd.go:58-68 | a pooled decompressor taken for a new layer is none of the chain's and idle nowhere, and the chain stays valid |
| BodyReader.CompressedBodyReader.constructor | middleware.go:104-106 | the reader holds the layers |
| BodyReader.CompressedBodyReader.Read | bodyReader.go:18-20 | reads only the last layer; with no layers the index panics |
| BodyReader.CompressedBodyReader.Close | bodyReader.go:22-29 | as written: returns the first failure, and exactly the layers up to it are closed |
| BodyReader.CompressedBodyReader.CloseAll | bodyReader.go:13 | corrected: the same result, and every layer is closed |
| BodyReader.CompressedBodyReader.CloseNext | bodyReader.go:23-25 | one turn of the loop closes layer i with the result its state determines |
| BodyReader.CompressedBodyReader.ClosePooled | bodyReader.go:23-25 | closing a pooled layer leaves the later layers open, valid and unchanged |
| BodyReader.CompressedBodyReader.ClosePlain | bodyReader.go:23-25 | closing a plain layer leaves the later layers untouched |
| BodyWriter.RespWriter.constructor | bodyWriter.go:29-38 | an empty buffer, nothing written, no compressor |
| BodyWriter.RespWriter.Size | bodyWriter.go:70-72 | the number of bytes accepted |
| BodyWriter.RespWriter.Written | bodyWriter.go:74-76 | true exactly when some byte was accepted |
| BodyWriter.RespWriter.Write | bodyWriter.go:44-68 | drops Content-Length; below the threshold buffers; reaching it (inclusive) swaps, and a failed drain (eager compressor, failed connection, non-empty buffer) returns the error and keeps the buffer; after the swap forwards; counts only successful writes; a write fails only with an eager compressor over a failed connection, and the first one reaching the threshold commits the status then |
| BodyWriter.RespWriter.Swap | bodyWriter.go:47-53 | takes a compressor bound to the response and drains the buffer; an eager one writes its header when the buffer is not empty, committing the status; on failure the buffer is kept |
| BodyWriter.RespWriter.Forward | bodyWriter.go:55-67 | after the swap a write goes to the compressor: it panics after Close, fails exactly when the compressor is eager and the connection failed, commits the status on an eager compressor's first write, and is counted when it succeeds |
| BodyWriter.RespWriter.Buffer | bodyWriter.go:59-67 | before the swap a write is appended to the buffer |
| BodyWriter.RespWriter.WriteString | bodyWriter.go:40-42 | the same as Write of the string's bytes |
| BodyWriter.RespWriter.Close | bodyWriter.go:78-89 | unswapped: copies the buffer unchanged (error kept); swapped: finishes the stream with every accepted byte, commits the status and returns the compressor to its pool |
| BodyWriter.RespWriter.WriteHeader | bodyWriter.go:95-98 | drops Content-Length and passes the status to gin's writer, which keeps it only when positive and nothing has been written |
| Middleware.Request.Replace | middleware.go:107 | the request's header and body become the given ones |
| Middleware.ContentEncodings | middleware.go:68 | at least one coding, none containing a comma or a space |
| Middleware.Peeled | middleware.go:77-92 | the loop undoes the longest supported suffix, capped by the step limit, stopping before an unsupported coding |
| Middleware.Rewritten | middleware.go:97-102 | Content-Length removed; Content-Encoding removed exactly when all codings were undone; other headers kept |
| Middleware.RewrittenReparses | middleware.go:101 | the rewritten Content-Encoding reads back as exactly the codings not undone |
| Middleware.DecompressRequest | middleware.go:63-110 | nothing changes when decoding is off, there is no body or no coding is undone; otherwise `Peeled` layers chained over the body, the headers `Rewritten`, the body replaced |
| Middleware.Install | middleware.go:97-107 | the request gets the rewritten headers and the new body |
| Middleware.NewBodyReader | middleware.go:104-106 | the reader over the layers is valid and keeps the chain |
| Middleware.PeelLayers | middleware.go:76-92 | the loop makes exactly `Peeled` layers and stops at the index where `Peeled` stops |
| Middleware.PeeledNext | middleware.go:78-91 | a supported coding adds one layer; an unsupported one stops the count |
| Middleware.PeeledNone | middleware.go:78 | nothing is undone past the start or beyond the step limit |
| Middleware.PeelStep | middleware.go:79-91 | one turn adds a layer exactly when the coding is supported |
| Middleware.AddLayer | middleware.go:81-88 | a new layer reads from the outermost one so far (or the body) and extends the chain |
| Middleware.ChainAppend | middleware.go:81-88 | a layer over the outermost, made by the next coding's algorithm, extends the chain |
| Middleware.LayersAppend | middleware.go:87-88 | an open, distinct layer extends a valid chain |
| Middleware.AddPlain | middleware.go:86-88 | a gzip or deflate layer is a fresh reader; the registry and chain are untouched |
| Middleware.AddPooled | zstd.go:58-68 | a pooled layer keeps the registry and chain valid |
| Middleware.TakePooled | zstd.go:58-68 | the decompressor taken is none of the chain's and idle in no pool |
| Handler.ShouldCompress | middleware.go:170-182 | compress exactly when Accept has no "text/event-stream", Connection has no "Upgrade", the exclude function does not say yes, and some algorithm is enabled |
| Handler.Excluded | middleware.go:177 | the exclude function's answer on the request headers, or none when unset |
| Handler.Settled | bodyWriter.go:95-98 | the status gin holds while nothing is written is the initial one or a positive code the chain wrote |
| Handler.SettledNone | bodyWriter.go:95-98 | with no positive code written, the initial status stays |
| Handler.SettledLast | bodyWriter.go:95-98 | otherwise the last positive code written is the one held |
| Handler.SettledStep | bodyWriter.go:97 | one more action changes the held status only when it writes a positive code |
| Handler.FirstWrite | middleware.go:43-44 | the index of the first body write; every action before it is a status write |
| Handler.FirstWriteWrites | middleware.go:43-44 | the first j actions hold a body write exactly when the first body write comes before the j-th |
| Handler.SwapFrom | bodyWriter.go:47 | from index i on, the first body write that brings the payload to the threshold, none before it doing so |
| Handler.SwapPoint | bodyWriter.go:47 | the index of the write that swaps: it exists exactly when the threshold is reached, and no earlier write reaches it |
| Handler.CommitPoint | middleware.go:43-51 | the first byte reaches gin's writer at the first body write on the plain path, at the swap with an eager (gzip, deflate) compressor, and only at Close with br or zstd |
| Handler.PayloadGrows | bodyWriter.go:44-68 | the bytes written so far never exceed the total |
| Handler.ReachedTotal | bodyWriter.go:47 | some write reached the threshold exactly when there was a write and the total reaches it |
| Handler.LastWrite | bodyWriter.go:44-68 | a last body write exists after any body write |
| Handler.PayloadAfterLastWrite | bodyWriter.go:44-68 | status writes after the last body write add no bytes |
| Handler.ReachedStep | bodyWriter.go:47 | the threshold is reached after one more action exactly when it was before, or this write reaches it |
| Handler.NoWritesNoPayload | bodyWriter.go:44-68 | with no body writes there is no payload |
| Handler.FormatInt | middleware.go:45 | `%v` of an int reads back as that int, with a minus sign when negative |
| Codec.Started | middleware.go:45 | gin's size after a first write counts from 0, not from -1, and a count already started is kept |
| Handler.ServePlain | middleware.go:43-47 | uncompressed: on a healthy connection the body is the payload; the status is the one in force at the first body write; Content-Length is gin's size |
| Handler.PlainAdvances | middleware.go:43-44 | one action written straight to gin's writer extends the body, size and status the actions so far determine |
| Handler.PlainDone | middleware.go:43-45 | after every action, the body holds the payload, gin's size counts it from the first body write, and the status is the one in force then |
| Handler.PayloadStep | bodyWriter.go:44-68 | one more action adds its bytes, if any, to the payload |
| Handler.PlainBodyStep | middleware.go:44 | a direct body write appends its bytes to the response on a healthy connection |
| Handler.PlainSizeStep | middleware.go:45 | gin's size stays -1 before the first body write and counts the payload from it |
| Handler.PlainStatusStep | bodyWriter.go:95-98 | a status write changes the status sent only before the first body write |
| Handler.ServeCompressed | middleware.go:49-59 | the status is the one in force when the first byte reaches the response (`CommitPoint`); on a healthy connection, or with a buffering compressor, the writer accepts the payload and swaps exactly when the threshold is reached; after Close, Vary and Content-Encoding are set exactly when swapped; Content-Length is the uncompressed size |
| Handler.Run | middleware.go:50-51 | running the chain through the writer leaves the response body alone, fixes the status at the commit point and, on a healthy connection or with a buffering compressor, accepts the payload and swaps exactly when the threshold is reached |
| Handler.Step | middleware.go:51 | one action of the chain through the writer keeps the status, size, accepted bytes and swap state in step with the actions so far |
| Handler.WriteStep | bodyWriter.go:44-68 | one body write extends the accepted bytes and the swap state, and commits the status at the commit point |
| Handler.StatusStep | bodyWriter.go:95-98 | one status write changes the held status only before the commit point |
| Handler.WriteAdvances | bodyWriter.go:44-68 | a body write through the writer, as its contract promises, extends the accepted bytes, swap state, size and status the actions so far determine |
| Handler.Publish | middleware.go:53-59 | closes the writer, then sets Vary and Content-Encoding when swapped, and Content-Length |
| Handler.Choose | middleware.go:41-43 | the algorithm is what selectAlgorithm picks among the enabled ones; compress exactly when it is non-empty and shouldCompress holds |
| Handler.Respond | middleware.go:41-59 | the plain path exactly when no algorithm is chosen or shouldCompress fails, otherwise the compressed path with the chosen algorithm; the status is the one in force at the commit point |
| Handler.Decode | middleware.go:34-39 | the request ends up as decompressRequest leaves it (`Peeled` layers, `Rewritten` headers, or untouched); Accept-Encoding and the response side are unchanged |
| Handler.Handle | middleware.go:33-60 | the whole handler: a decoded request carries `Peeled` layers and `Rewritten` headers, otherwise it is untouched; the response goes plain or compressed as `Respond` says; the status is the one in force when the first byte reaches the response; plain: the body is the payload on a healthy connection and Content-Length is gin's size; compressed: Vary and Content-Encoding exactly when swapped, Content-Length the uncompressed size, and an unswapped body is the payload on a healthy connection |
| Scenarios.DefaultAllowed | algo.go:37-42 | at start all four tokens are allowed, with priorities zstd < deflate < gzip < br |
| Scenarios.StartAllowed | algo.go:44-54 | a registry at its defaults enables every token at its default priority |
| Scenarios.TokensPlain | options.go:16-21 | the four tokens are non-empty, lower-case, and have no space, comma or `;` |
| Scenarios.ListedHeader | middleware.go:118-128 | a ", "-join of lower-case, space-free entries is parsed entry by entry |
| Scenarios.ChosenBest | middleware.go:154-167 | a strictly best survivor is the one chosen |
| Scenarios.ThreeListed | middleware.go:128-148 | three surviving entries give their parses in order |
| Scenarios.Tenths | middleware.go:135-141 | `t;q=0.d` parses to token t at 100·d thousandths |
| Scenarios.ThreeOffered | middleware.go:129-133 | three plain allowed entries all survive at weight 1000 |
| Scenarios.ThreeWeighted | middleware.go:135-147 | three allowed entries weighted 0.d survive at their weights |
| Scenarios.PrefersBrotli | compress_test.go:67-69 | "gzip, zstd, br" under the defaults selects br |
| Scenarios.HeaviestWins | middleware.go:154-167 | the strictly heaviest entry wins whatever the priorities |
| Scenarios.WeightDecides | compress_test.go:190-198 | "br;q=0.5, gzip;q=0.7, deflate;q=0.3" selects gzip |
| Scenarios.NoneSupported | compress_test.go:92-101 | a single unsupported token such as "doesnotexist" selects nothing |
| Scenarios.TwoCodings | middleware.go:68 | "x, y" lists the codings x then y |
| Scenarios.BothUndone | middleware.go:78-99 | two supported codings with two or more steps are both undone and Content-Encoding is removed |
| Scenarios.OuterUndone | middleware.go:78-101 | with one step, or an unsupported first coding, only the last is undone and Content-Encoding names the first |
| Scenarios.GzipDeflateOneStep | decompress_test.go:125-146 | "gzip, deflate" with the default single step: one layer undone, the handler sees "gzip" |
| Scenarios.GzipDeflateTwoSteps | decompress_test.go:149-177 | "gzip, deflate" with two steps: both undone, even with every algorithm disabled for responses |
| Scenarios.UnknownInnerCoding | decompress_test.go:180-207 | "gzipButDifferentLol, deflate" with four steps: one undone, the unknown coding stays in Content-Encoding |

## Left out

- Codec bytes: no compression format is modelled. An encoder's output is the input it was given, and a decoder yields pending bytes.
  - Malformed stream headers that make `getReader` panic are not modelled (zstd.go:60-62, gzip.go:53-56, deflate.go:50-53, brotli.go:53-55).
  - Invalid levels that make `makeCompressor` panic are not modelled either.
- Negotiation.FormatQRoundTrip: holds of the program's `int(q * 1000)` only for weights up to 1 (q at most 1000 thousandths); above that, floating-point rounding can lose a thousandth (1.001 gives 1000), which the model's exact decimal does not.
- Negotiation.ParseQ: a weight is parsed to its exact, unbounded value. The program's float64 path differs at the extremes. `strconv.ParseFloat` fails with `ErrRange` for a weight that rounds past the largest float64 (about 1.8e308), and the program then counts an error and keeps weight 1000. The model parses such a weight and counts no error. For example, under the defaults `gzip;q=1` followed by 309 zeros, then `, br`, selects br in the program and gzip in the model. Separately, `int(q * 1000)` is implementation-dependent once `q * 1000` reaches 2^63 (on amd64 it yields the minimum int64 and the entry is dropped), which the model does not reproduce either.
- Weight parsing covers only the decimal forms `[+-]digits[.digits]`. Exponents, hexadecimal floats, `inf`, `nan` and underscores, which `strconv.ParseFloat` also accepts, are not modelled. Neither is floating-point rounding in `int(q * 1000)`: the model truncates the exact decimal.
- `strings.ToLower` is modelled for ASCII letters only.
- The `sort.Slice` call is modelled by its observable result, the last element of the sorted slice, computed by a scan. The sort is not stable, so which of several equally good entries comes last is left open. `BestUnique` shows this cannot matter while priorities are distinct.
- `sync.Pool` is modelled as a sequential stack of idle instances. Concurrency, and the garbage collector dropping idle instances, are left out.
- The 400 response for a failed `decompressRequest` (middleware.go:34-36) is not modelled. decompressRequest never returns an error, so that branch cannot be taken.
- Handle: does not compose the deferred close of the request body (middleware.go:37-39) into the handler. `CompressedBodyReader.Close` models that close on its own.
- Respond: does not state that the registry stays valid after the response is served. Only the pools it may change are framed.
- Handle and Decode: the registry's validity after decoding is stated only by `DecompressRequest` and `Decode`, not re-exported by `Handle`.
- The gin context (`c.Next`, `c.Error`, aborting) is reduced to the headers, the body and a sequence of writes. The exclude function sees only the request headers.
- `WriteString` takes the string's bytes. UTF-8 encoding is not modelled.
- Codec.Encoder.Write: a brotli or zstd compressor also writes to the response once its internal buffer fills. That commits the status and reports a failed connection earlier than the model, which has them write only at Close. The claims of `RespWriter.Write`, `Swap`, `Forward`, `Run`, `ServeCompressed`, `Respond` and `Handle` that a br or zstd write never fails, and that the status is fixed only at Close, inherit this. What a compressor writes is modelled as an empty write. The connection's failure is fixed for the whole response.
- Codec.Sink.WriteHeader: follows gin versions whose WriteHeader ignores a code once the response is written. Older versions overwrite the recorded status and only log a warning; the status already sent is the same.
- Headers set after the first byte (`Content-Length` on the plain path, `Vary`, `Content-Encoding` and `Content-Length` after Close on the compressed path) are modelled as entries in gin's header map. Whether they still reach the client, which gin decides when it sends the status, is not modelled.
- The public entry point (compress.go) that builds the middleware from options is not modelled.
- `Codec.Sink` stands for gin's response writer only as far as the middleware uses it. It has a header map, a status, a body, a size starting at -1, and a sticky connection error.

## Findings

| source | as written | input that shows it | evidently intended | confidence | as-written member | corrected member |
|---|---|---|---|---|---|---|
| bodyReader.go:22-29 | `Close` returns at the first layer whose Close fails, so the layers after it are never closed and a pooled decompressor among them is never returned to its pool | `Content-Encoding: zstd, deflate` with two decode steps and a zlib stream with a bad checksum: the layer results are `[Error("zlib: invalid checksum"), Ok]`, and only the zlib layer is closed | every layer is closed, as the type's doc comment (bodyReader.go:13) says, and the first error is reported | medium, not executed | BodyReader.CompressedBodyReader.Close, BodyReader.BadChecksumInnerLayer | BodyReader.CompressedBodyReader.CloseAll |
