/** Requests worked through against the default configuration: which
    algorithm `Accept-Encoding` selects when every algorithm is enabled at
    its default priority, and how deep a two-coding request body is
    decoded. */
module Scenarios {
  import opened Common
  import opened Algo
  import opened Registry
  import opened Options
  import opened Negotiation
  import opened Middleware
  import opened Handler

  /** The priorities a freshly started registry allows. */
  function DefaultAllowed(): (m: map<string, int>)
    ensures m.Keys == Tokens
    ensures m[ZSTD] < m[DEFLATE] < m[GZIP] < m[BROTLI]
  {
    map[ZSTD := DefaultConfig(ZSTD).priority, GZIP := DefaultConfig(GZIP).priority,
        BROTLI := DefaultConfig(BROTLI).priority, DEFLATE := DefaultConfig(DEFLATE).priority]
  }

  /** A registry whose descriptors are the defaults, as the program starts,
      allows every token at its default priority. */
  lemma StartAllowed(reg: Registry)
    requires reg.AtDefaults()
    ensures reg.Enabled() == Tokens
    ensures reg.EnabledPriorities() == DefaultAllowed()
  {
    DefaultPriorities();
  }

  predicate NoCapitals(s: string)
  {
    forall k :: 0 <= k < |s| ==> !('A' <= s[k] <= 'Z')
  }

  /** An entry as a client writes it in the examples below: no spaces, no
      commas and no capitals. */
  predicate Listable(s: string)
  {
    ' ' !in s && ',' !in s && NoCapitals(s)
  }

  /** A listable entry without parameters. */
  predicate Plain(s: string)
  {
    Listable(s) && ';' !in s
  }

  lemma TokensPlain()
    ensures forall t :: t in Tokens ==> Plain(t) && t != ""
  {
    assert Plain(ZSTD) && Plain(GZIP) && Plain(BROTLI) && Plain(DEFLATE);
  }

  lemma {:induction false} JoinNoCapitals(xs: seq<string>, sep: string)
    requires NoCapitals(sep)
    requires forall i :: 0 <= i < |xs| ==> NoCapitals(xs[i])
    ensures NoCapitals(Join(xs, sep))
    decreases |xs|
  {
    if |xs| > 1 {
      JoinNoCapitals(xs[1..], sep);
      var s := xs[0] + sep + Join(xs[1..], sep);
      forall k | 0 <= k < |s| ensures !('A' <= s[k] <= 'Z') {
        if k < |xs[0]| {
          assert s[k] == xs[0][k];
        } else if k < |xs[0]| + |sep| {
          assert s[k] == sep[k - |xs[0]|];
        } else {
          assert s[k] == Join(xs[1..], sep)[k - |xs[0]| - |sep|];
        }
      }
    }
  }

  /** A header written as plain entries separated by ", " offers exactly
      the survivors of those entries. */
  lemma {:induction false} ListedHeader(xs: seq<string>, allowed: map<string, int>)
    requires |xs| >= 1 && xs[0] != ""
    requires forall i :: 0 <= i < |xs| ==> Listable(xs[i])
    ensures Acceptable(Join(xs, ", "), allowed) == Candidates(xs, allowed)
  {
    RemoveSpacesJoin(xs);
    JoinNoCapitals(xs, ",");
    ToLowerNoop(Join(xs, ","));
    assert Normalize(Join(xs, ", ")) == Join(xs, ",");
    assert |xs| > 1 ==> Join(xs, ",") == xs[0] + "," + Join(xs[1..], ",");
    assert Join(xs, ",") != "";
    SplitJoin(xs, ',');
  }

  /** One more entry adds its survivor, if any, at the end. */
  lemma CandidatesSnoc(xs: seq<string>, x: string, allowed: map<string, int>)
    ensures Candidates(xs + [x], allowed) ==
      Candidates(xs, allowed) + (var a := ParseEntry(x).0; if a.encoding in allowed && a.q > 0 then [a] else [])
  {
    assert (xs + [x])[..|xs|] == xs;
  }

  /** `algo` is chosen from a header whose survivors `cs` have their best
      entry at `b`, the only one of highest weight and priority. */
  lemma ChosenBest(header: string, allowed: map<string, int>, cs: seq<AcceptableEncoding>, b: nat, algo: string)
    requires Chosen(header, allowed, algo) && Acceptable(header, allowed) == cs
    requires b < |cs|
    requires forall k :: 0 <= k < |cs| && k != b ==>
      cs[k].q < cs[b].q || (cs[k].q == cs[b].q && allowed[cs[k].encoding] < allowed[cs[b].encoding])
    ensures algo == cs[b].encoding
  {
    var i :| IsBest(cs, i, allowed) && cs[i].encoding == algo;
  }

  /** Three listable entries that all survive give, in order, the
      survivors they parse to. */
  lemma ThreeListed(e1: string, e2: string, e3: string, m: map<string, int>)
    requires Listable(e1) && Listable(e2) && Listable(e3) && e1 != ""
    requires ParseEntry(e1).0.encoding in m && ParseEntry(e1).0.q > 0
    requires ParseEntry(e2).0.encoding in m && ParseEntry(e2).0.q > 0
    requires ParseEntry(e3).0.encoding in m && ParseEntry(e3).0.q > 0
    ensures Acceptable(Join([e1, e2, e3], ", "), m) == [ParseEntry(e1).0, ParseEntry(e2).0, ParseEntry(e3).0]
  {
    ListedHeader([e1, e2, e3], m);
    CandidatesSnoc([], e1, m);
    assert [e1] == [] + [e1];
    CandidatesSnoc([e1], e2, m);
    assert [e1, e2] == [e1] + [e2];
    CandidatesSnoc([e1, e2], e3, m);
    assert [e1, e2, e3] == [e1, e2] + [e3];
  }

  /** `t;q=w` with `w` of the form `0.d`: the token `t` at weight d
      tenths, that is 100 * d thousandths. */
  lemma Tenths(t: string, w: string)
    requires Plain(t) && |w| == 3 && w[0] == '0' && w[1] == '.' && IsDigit(w[2])
    ensures Listable(t + ";q=" + w)
    ensures ParseEntry(t + ";q=" + w).0 == AcceptableEncoding(t, 100 * (w[2] as int - '0' as int))
  {
    var d := w[2];
    assert ';' !in w;
    ParseQSign(w);
    assert w == "0" + "." + [d];
    ParseUnsignedDecimal("0", [d]);
    assert Frac3([d]) == [d, '0', '0'];
    assert DigitsValue([d, '0', '0'][..2]) == DigitsValue([d, '0']) by {
      assert [d, '0', '0'][..2] == [d, '0'];
    }
    assert DigitsValue([d, '0'][..1]) == DigitsValue([d]) by {
      assert [d, '0'][..1] == [d];
    }
    assert DigitsValue([d]) == d as int - '0' as int by {
      assert [d][..0] == [];
    }
    EntryWeighted(t, w);
    var e := t + ";q=" + w;
    forall k | 0 <= k < |e| ensures e[k] != ' ' && e[k] != ',' && !('A' <= e[k] <= 'Z') {
      if k < |t| {
        assert e[k] == t[k];
      }
    }
  }

  /** Three plain allowed entries at the default weight all survive, in
      order. */
  lemma ThreeOffered(a: string, b: string, c: string, m: map<string, int>)
    requires Plain(a) && Plain(b) && Plain(c) && a != ""
    requires a in m && b in m && c in m
    ensures Acceptable(Join([a, b, c], ", "), m) ==
      [AcceptableEncoding(a, DefaultQ), AcceptableEncoding(b, DefaultQ), AcceptableEncoding(c, DefaultQ)]
  {
    EntryPlain(a);
    EntryPlain(b);
    EntryPlain(c);
    ThreeListed(a, b, c, m);
  }

  /** Three allowed entries weighted `0.d`, each with a non-zero digit, all
      survive, in order, at their weights. */
  lemma ThreeWeighted(a: string, wa: string, b: string, wb: string, c: string, wc: string, m: map<string, int>)
    requires Plain(a) && Plain(b) && Plain(c)
    requires a in m && b in m && c in m
    requires |wa| == 3 && wa[0] == '0' && wa[1] == '.' && '1' <= wa[2] <= '9'
    requires |wb| == 3 && wb[0] == '0' && wb[1] == '.' && '1' <= wb[2] <= '9'
    requires |wc| == 3 && wc[0] == '0' && wc[1] == '.' && '1' <= wc[2] <= '9'
    ensures Acceptable(Join([a + ";q=" + wa, b + ";q=" + wb, c + ";q=" + wc], ", "), m) ==
      [ AcceptableEncoding(a, 100 * (wa[2] as int - '0' as int)),
        AcceptableEncoding(b, 100 * (wb[2] as int - '0' as int)),
        AcceptableEncoding(c, 100 * (wc[2] as int - '0' as int)) ]
  {
    Tenths(a, wa);
    Tenths(b, wb);
    Tenths(c, wc);
    ThreeListed(a + ";q=" + wa, b + ";q=" + wb, c + ";q=" + wc, m);
  }

  /** "gzip, zstd, br": all three at the default weight; br has the
      highest priority. */
  lemma PrefersBrotli(algo: string)
    requires Chosen(Join([GZIP, ZSTD, BROTLI], ", "), DefaultAllowed(), algo)
    ensures algo == BROTLI
  {
    TokensPlain();
    ThreeOffered(GZIP, ZSTD, BROTLI, DefaultAllowed());
    ChosenBest(Join([GZIP, ZSTD, BROTLI], ", "), DefaultAllowed(),
      [AcceptableEncoding(GZIP, DefaultQ), AcceptableEncoding(ZSTD, DefaultQ), AcceptableEncoding(BROTLI, DefaultQ)], 2, algo);
  }

  /** Of three allowed entries weighted `0.d`, one whose digit is larger
      than both others' is selected, whatever the priorities. */
  lemma HeaviestWins(a: string, wa: string, b: string, wb: string, c: string, wc: string,
                     m: map<string, int>, algo: string)
    requires Plain(a) && Plain(b) && Plain(c)
    requires a in m && b in m && c in m
    requires |wa| == 3 && wa[0] == '0' && wa[1] == '.' && '1' <= wa[2] <= '9'
    requires |wb| == 3 && wb[0] == '0' && wb[1] == '.' && '1' <= wb[2] <= '9'
    requires |wc| == 3 && wc[0] == '0' && wc[1] == '.' && '1' <= wc[2] <= '9'
    requires wa[2] < wb[2] && wc[2] < wb[2]
    requires Chosen(Join([a + ";q=" + wa, b + ";q=" + wb, c + ";q=" + wc], ", "), m, algo)
    ensures algo == b
  {
    ThreeWeighted(a, wa, b, wb, c, wc, m);
    ChosenBest(Join([a + ";q=" + wa, b + ";q=" + wb, c + ";q=" + wc], ", "), m,
      [ AcceptableEncoding(a, 100 * (wa[2] as int - '0' as int)),
        AcceptableEncoding(b, 100 * (wb[2] as int - '0' as int)),
        AcceptableEncoding(c, 100 * (wc[2] as int - '0' as int)) ], 1, algo);
  }

  /** "br;q=0.5, gzip;q=0.7, deflate;q=0.3": the weight decides before the
      priority, so gzip wins. */
  lemma WeightDecides(algo: string)
    requires Chosen(Join([BROTLI + ";q=" + "0.5", GZIP + ";q=" + "0.7", DEFLATE + ";q=" + "0.3"], ", "), DefaultAllowed(), algo)
    ensures algo == GZIP
  {
    TokensPlain();
    HeaviestWins(BROTLI, "0.5", GZIP, "0.7", DEFLATE, "0.3", DefaultAllowed(), algo);
  }

  /** A single plain entry naming no supported algorithm, such as
      "doesnotexist", selects nothing. */
  lemma NoneSupported(x: string, algo: string)
    requires Plain(x) && x != "" && x !in Tokens
    requires Chosen(x, DefaultAllowed(), algo)
    ensures algo == ""
  {
    ListedHeader([x], DefaultAllowed());
    assert Join([x], ", ") == x;
    EntryPlain(x);
    CandidatesSnoc([], x, DefaultAllowed());
    assert [x] == [] + [x];
  }

  // -----------------------------------------------------------------------
  // Request bodies with two content codings

  /** `Content-Encoding: x, y` lists the codings x, then y. */
  lemma TwoCodings(h: Headers, x: string, y: string)
    requires GetHeader(h, ContentEncoding) == Join([x, y], ", ")
    requires ' ' !in x && ',' !in x && ' ' !in y && ',' !in y
    ensures ContentEncodings(h) == [x, y]
  {
    RemoveSpacesJoin([x, y]);
    SplitJoin([x, y], ',');
  }

  /** Two supported codings and at least two steps: both are undone and
      `Content-Encoding` is removed. */
  lemma BothUndone(h: Headers, x: string, y: string, steps: int)
    requires GetHeader(h, ContentEncoding) == Join([x, y], ", ")
    requires ' ' !in x && ',' !in x && ' ' !in y && ',' !in y
    requires x in Tokens && y in Tokens && steps >= 2
    ensures Peeled(ContentEncodings(h), steps) == 2
    ensures ContentEncoding !in Rewritten(h, ContentEncodings(h), 2)
  {
    TwoCodings(h, x, y);
    assert [x, y][..1] == [x];
  }

  /** A supported last coding and either a single step or an unsupported
      first coding: only the last is undone, and `Content-Encoding` names
      the first. */
  lemma OuterUndone(h: Headers, x: string, y: string, steps: int)
    requires GetHeader(h, ContentEncoding) == Join([x, y], ", ")
    requires ' ' !in x && ',' !in x && ' ' !in y && ',' !in y
    requires y in Tokens && steps >= 1 && (steps == 1 || x !in Tokens)
    ensures Peeled(ContentEncodings(h), steps) == 1
    ensures ContentEncoding in Rewritten(h, ContentEncodings(h), 1)
    ensures Rewritten(h, ContentEncodings(h), 1)[ContentEncoding] == x
  {
    TwoCodings(h, x, y);
    assert [x, y][..1] == [x];
  }

  /** "gzip, deflate" under the default single step: the deflate layer is
      undone and the handler sees `Content-Encoding: gzip`. */
  lemma GzipDeflateOneStep(h: Headers)
    requires GetHeader(h, ContentEncoding) == Join([GZIP, DEFLATE], ", ")
    ensures Peeled(ContentEncodings(h), DefaultMaxDecodeSteps) == 1
    ensures ContentEncoding in Rewritten(h, ContentEncodings(h), 1)
    ensures Rewritten(h, ContentEncodings(h), 1)[ContentEncoding] == GZIP
  {
    TokensPlain();
    OuterUndone(h, GZIP, DEFLATE, DefaultMaxDecodeSteps);
  }

  /** "gzip, deflate" with two steps: both layers are undone, whether or
      not the algorithms are enabled for responses. */
  lemma GzipDeflateTwoSteps(h: Headers)
    requires GetHeader(h, ContentEncoding) == Join([GZIP, DEFLATE], ", ")
    ensures Peeled(ContentEncodings(h), 2) == 2
    ensures ContentEncoding !in Rewritten(h, ContentEncodings(h), 2)
  {
    TokensPlain();
    BothUndone(h, GZIP, DEFLATE, 2);
  }

  /** An unknown first coding such as "gzipButDifferentLol", then deflate,
      with four steps: decoding stops at the unknown coding, which the
      handler still sees in `Content-Encoding`. */
  lemma UnknownInnerCoding(h: Headers, x: string)
    requires ' ' !in x && ',' !in x && x !in Tokens
    requires GetHeader(h, ContentEncoding) == Join([x, DEFLATE], ", ")
    ensures Peeled(ContentEncodings(h), 4) == 1
    ensures ContentEncoding in Rewritten(h, ContentEncodings(h), 1)
    ensures Rewritten(h, ContentEncodings(h), 1)[ContentEncoding] == x
  {
    TokensPlain();
    OuterUndone(h, x, DEFLATE, 4);
  }
}
