/** Content-coding negotiation (selectAlgorithm in middleware.go): the
    `Accept-Encoding` request header is normalised, split into entries,
    each entry is given a weight on a 0..1000 fixed-point scale (section
    12.4.2 of RFC 9110), entries for encodings that are not allowed or that
    have weight 0 are dropped, and the survivor with the highest weight,
    ties broken by the configured priority, is chosen. */
module Negotiation {
  import opened Common
  import opened Algo

  /** acceptableEncoding: a token with its weight times 1000. */
  datatype AcceptableEncoding = AcceptableEncoding(encoding: string, q: int)

  /** The weight of an entry without a (readable) `q` parameter. */
  const DefaultQ := 1000

  // -----------------------------------------------------------------------
  // Normalisation

  /** The header with its spaces removed and then lower-cased. */
  function Normalize(header: string): (r: string)
    ensures |r| <= |header|
    ensures ' ' !in r
    ensures forall i :: 0 <= i < |r| ==> !('A' <= r[i] <= 'Z')
  {
    var s := RemoveSpaces(header);
    assert forall i :: 0 <= i < |s| ==> s[i] != ' ';
    ToLower(s)
  }

  /** Lower-casing text without ASCII capitals changes nothing. */
  lemma ToLowerNoop(s: string)
    requires forall i :: 0 <= i < |s| ==> !('A' <= s[i] <= 'Z')
    ensures ToLower(s) == s
  {
  }

  // -----------------------------------------------------------------------
  // Weights: strconv.ParseFloat followed by int(q * 1000)

  function Pow10(n: nat): (r: nat)
    ensures r >= 1
  {
    if n == 0 then 1 else 10 * Pow10(n - 1)
  }

  /** `n` zero digits. */
  function Zeros(n: nat): (r: string)
    ensures |r| == n && AllDigits(r)
  {
    seq(n, _ => '0')
  }

  /** The first three fraction digits, padded with zeros: the thousandths
      that survive the truncation of q * 1000. */
  function Frac3(f: string): (r: string)
    requires AllDigits(f)
    ensures |r| == 3 && AllDigits(r)
  {
    (f + "000")[..3]
  }

  /** The weight written in `s`, times 1000 and truncated towards zero, for
      the decimal forms `[+-]digits[.digits]` (either digit run may be
      empty, not both); anything else does not parse. */
  function ParseQ(s: string): Option<int>
  {
    if |s| > 0 && s[0] == '-' then
      match ParseUnsigned(s[1..])
      case None => None
      case Some(m) => Some(-m)
    else if |s| > 0 && s[0] == '+' then ParseUnsigned(s[1..])
    else ParseUnsigned(s)
  }

  /** The unsigned part: `digits[.digits]`, scaled by 1000 and truncated. */
  function ParseUnsigned(body: string): Option<int>
  {
    var parts := Split(body, '.');
    if |parts| == 1 then ParseDecimal(parts[0], "")
    else if |parts| == 2 then ParseDecimal(parts[0], parts[1])
    else None
  }

  /** The integer digits `ip` and fraction digits `fp` of a weight. */
  function ParseDecimal(ip: string, fp: string): Option<int>
  {
    if |ip| + |fp| == 0 || !AllDigits(ip) || !AllDigits(fp) then None
    else Some(DigitsValue(ip) * 1000 + DigitsValue(Frac3(fp)))
  }

  lemma {:induction false} DigitsValueAppend(a: string, b: string)
    requires AllDigits(a) && AllDigits(b)
    ensures AllDigits(a + b)
    ensures DigitsValue(a + b) == DigitsValue(a) * Pow10(|b|) + DigitsValue(b)
    decreases |b|
  {
    if |b| == 0 {
      assert a + b == a;
    } else {
      var b' := b[..|b| - 1];
      assert (a + b)[..|a + b| - 1] == a + b';
      assert (a + b)[|a + b| - 1] == b[|b| - 1];
      DigitsValueAppend(a, b');
      var d := b[|b| - 1] as int - '0' as int;
      var av, p, bv := DigitsValue(a), Pow10(|b'|), DigitsValue(b');
      assert DigitsValue(a + b) == (av * p + bv) * 10 + d;
      assert DigitsValue(b) == bv * 10 + d;
      assert Pow10(|b|) == p * 10;
      Distribute(av, p, bv, d);
    }
  }

  lemma Distribute(av: int, p: int, bv: int, d: int)
    ensures (av * p + bv) * 10 + d == av * (p * 10) + (bv * 10 + d)
  {
  }

  lemma {:induction false} DigitsValueBound(s: string)
    requires AllDigits(s)
    ensures DigitsValue(s) < Pow10(|s|)
  {
    if |s| > 0 {
      DigitsValueBound(s[..|s| - 1]);
    }
  }

  lemma {:induction false} ZerosValue(n: nat)
    ensures DigitsValue(Zeros(n)) == 0
  {
    if n > 0 {
      assert Zeros(n)[..n - 1] == Zeros(n - 1);
      ZerosValue(n - 1);
    }
  }

  lemma {:induction false} Pow10Add(m: nat, n: nat)
    ensures Pow10(m + n) == Pow10(m) * Pow10(n)
  {
    if m > 0 {
      Pow10Add(m - 1, n);
      assert Pow10(m + n) == 10 * Pow10(m - 1 + n);
    }
  }

  /** The three digits kept by `Frac3` are the fraction scaled by 1000 and
      truncated, which is what int(q * 1000) keeps of the fraction:
      Frac3(f) / 1000 <= 0.f < (Frac3(f) + 1) / 1000. */
  lemma Frac3Value(f: string)
    requires AllDigits(f)
    ensures DigitsValue(Frac3(f)) * Pow10(|f|) <= DigitsValue(f) * 1000
    ensures DigitsValue(f) * 1000 < (DigitsValue(Frac3(f)) + 1) * Pow10(|f|)
  {
    if |f| <= 3 {
      Frac3ShortBounds(f);
    } else {
      Frac3Long(f);
    }
  }

  /** Up to three digits are kept whole: 0.f is exactly Frac3(f) / 1000. */
  lemma Frac3Short(f: string)
    requires AllDigits(f) && |f| <= 3
    ensures DigitsValue(Frac3(f)) * Pow10(|f|) == DigitsValue(f) * 1000
  {
    var z := Zeros(3 - |f|);
    assert Frac3(f) == f + z;
    DigitsValueAppend(f, z);
    ZerosValue(3 - |f|);
    var v, p, e := DigitsValue(f), Pow10(3 - |f|), Pow10(|f|);
    assert DigitsValue(Frac3(f)) == v * p;
    assert p * e == 1000 by {
      Pow10Add(3 - |f|, |f|);
      assert Pow10(3) == 1000;
    }
    MulAssoc(v, p, e);
  }

  lemma Frac3ShortBounds(f: string)
    requires AllDigits(f) && |f| <= 3
    ensures DigitsValue(Frac3(f)) * Pow10(|f|) <= DigitsValue(f) * 1000
    ensures DigitsValue(f) * 1000 < (DigitsValue(Frac3(f)) + 1) * Pow10(|f|)
  {
    Frac3Short(f);
    Successor(DigitsValue(Frac3(f)), Pow10(|f|));
  }

  lemma Successor(a: int, p: int)
    ensures (a + 1) * p == a * p + p
  {
  }

  lemma MulAssoc(v: int, p: int, e: int)
    ensures (v * p) * e == v * (p * e)
  {
  }

  /** Beyond three digits the rest is cut off. */
  lemma Frac3Long(f: string)
    requires AllDigits(f) && |f| > 3
    ensures DigitsValue(Frac3(f)) * Pow10(|f|) <= DigitsValue(f) * 1000
    ensures DigitsValue(f) * 1000 < (DigitsValue(Frac3(f)) + 1) * Pow10(|f|)
  {
    var a := f[..3];
    var b := f[3..];
    assert f == a + b;
    assert Frac3(f) == a;
    DigitsValueAppend(a, b);
    DigitsValueBound(b);
    var p, av, bv := Pow10(|b|), DigitsValue(a), DigitsValue(b);
    assert Pow10(|f|) == 1000 * p by {
      Pow10Add(3, |b|);
      assert Pow10(3) == 1000;
    }
    TruncBounds(av, p, bv);
  }

  lemma TruncBounds(av: int, p: int, bv: int)
    requires 0 <= bv < p
    ensures av * (1000 * p) <= (av * p + bv) * 1000 < (av + 1) * (1000 * p)
  {
    assert (av * p + bv) * 1000 == av * (1000 * p) + bv * 1000;
    assert (av + 1) * (1000 * p) == av * (1000 * p) + 1000 * p;
  }

  /** An unsigned decimal `ip.fp` reads as ip * 1000 plus the truncated
      thousandths of `fp`. */
  lemma ParseUnsignedDecimal(ip: string, fp: string)
    requires AllDigits(ip) && AllDigits(fp) && |ip| + |fp| > 0
    ensures ParseUnsigned(ip + "." + fp) == Some(DigitsValue(ip) * 1000 + DigitsValue(Frac3(fp)))
  {
    ParseUnsignedParts(ip, fp);
    DecimalValue(ip, fp);
  }

  lemma ParseUnsignedParts(ip: string, fp: string)
    requires AllDigits(ip) && AllDigits(fp)
    ensures ParseUnsigned(ip + "." + fp) == ParseDecimal(ip, fp)
  {
    SplitDecimal(ip, fp);
  }

  lemma DecimalValue(ip: string, fp: string)
    requires AllDigits(ip) && AllDigits(fp) && |ip| + |fp| > 0
    ensures ParseDecimal(ip, fp) == Some(DigitsValue(ip) * 1000 + DigitsValue(Frac3(fp)))
  {
  }

  lemma SplitDecimal(ip: string, fp: string)
    requires AllDigits(ip) && AllDigits(fp)
    ensures Split(ip + "." + fp, '.') == [ip, fp]
  {
    NoDot(ip);
    NoDot(fp);
    SplitJoin([ip, fp], '.');
    assert Join([ip, fp], ".") == ip + "." + fp;
  }

  /** A bare integer `ip` reads as ip * 1000. */
  lemma ParseUnsignedInteger(ip: string)
    requires AllDigits(ip) && |ip| > 0
    ensures ParseUnsigned(ip) == Some(DigitsValue(ip) * 1000)
  {
    SplitInteger(ip);
    NoFraction(ip);
  }

  lemma SplitInteger(ip: string)
    requires AllDigits(ip)
    ensures Split(ip, '.') == [ip]
  {
    NoDot(ip);
    SplitJoin([ip], '.');
    assert Join([ip], ".") == ip;
  }

  lemma NoFraction(ip: string)
    requires AllDigits(ip) && |ip| > 0
    ensures ParseDecimal(ip, "") == Some(DigitsValue(ip) * 1000)
  {
    assert Frac3("") == Zeros(3);
    ZerosValue(3);
  }

  lemma NoDot(s: string)
    requires AllDigits(s)
    ensures '.' !in s
  {
    assert forall i :: 0 <= i < |s| ==> s[i] != '.';
  }

  /** A signed weight is the unsigned weight, negated after a `-`. */
  lemma ParseQSign(body: string)
    requires |body| > 0 && IsDigit(body[0])
    ensures ParseQ(body) == ParseUnsigned(body)
    ensures ParseQ("+" + body) == ParseUnsigned(body)
    ensures ParseUnsigned(body).Some? ==> ParseQ("-" + body) == Some(-ParseUnsigned(body).value)
  {
    assert ("+" + body)[1..] == body;
    assert ("-" + body)[1..] == body;
  }

  /** The three-digit thousandths of `r`. */
  function Digits3(r: nat): (s: string)
    requires r < 1000
    ensures |s| == 3 && AllDigits(s)
  {
    [Digit(r / 100), Digit(r / 10 % 10), Digit(r % 10)]
  }

  function Digit(d: nat): (c: char)
    requires d < 10
    ensures IsDigit(c)
  {
    ('0' as int + d) as char
  }

  /** A weight written as a decimal with three fraction digits, the form
      RFC 9110 gives for `qvalue`; the partner of `ParseQ`. */
  function FormatQ(q: nat): string
  {
    FormatNat(q / 1000) + "." + Digits3(q % 1000)
  }

  /** Reading back a formatted weight gives the weight. */
  lemma FormatQRoundTrip(q: nat)
    ensures ParseQ(FormatQ(q)) == Some(q)
  {
    var ip := FormatNat(q / 1000);
    var r := q % 1000;
    var fp := Digits3(r);
    ParseUnsignedDecimal(ip, fp);
    assert FormatQ(q) == ip + "." + fp;
    ParseQSign(FormatQ(q));
    FormatNatRoundTrip(q / 1000);
    assert Frac3(fp) == fp;
    Digits3Value(r);
  }

  lemma Digits3Value(r: nat)
    requires r < 1000
    ensures DigitsValue(Digits3(r)) == r
  {
    var s := Digits3(r);
    var h, t, u := r / 100, r / 10 % 10, r % 10;
    assert s[..2][..1][..0] == [];
    assert s[..2][..1] == [Digit(h)];
    assert s[..2] == [Digit(h), Digit(t)];
    assert DigitsValue(s[..2][..1]) == h;
    assert DigitsValue(s[..2]) == h * 10 + t;
    assert DigitsValue(s) == (h * 10 + t) * 10 + u;
  }

  // -----------------------------------------------------------------------
  // Entries

  /** One entry `token[;param...]`: the token, and the weight from its
      first parameter when that is `q=<weight>`; the flag says the weight
      did not parse (an error is recorded and the default kept). */
  function ParseEntry(entry: string): (r: (AcceptableEncoding, bool))
    ensures ';' !in r.0.encoding
    ensures r.1 ==> r.0.q == DefaultQ
  {
    var parts := Split(entry, ';');
    var acc := AcceptableEncoding(parts[0], DefaultQ);
    if |parts| > 1 && HasPrefix(parts[1], "q=") then
      match ParseQ(parts[1][2..])
      case None => (acc, true)
      case Some(q) => (acc.(q := q), false)
    else (acc, false)
  }

  /** An entry without parameters is its token at the default weight. */
  lemma EntryPlain(t: string)
    requires ';' !in t
    ensures ParseEntry(t) == (AcceptableEncoding(t, DefaultQ), false)
  {
    SplitJoin([t], ';');
    assert Join([t], ";") == t;
  }

  /** An entry `t;q=w` is `t` at the parsed weight, or at the default
      weight with an error when `w` does not parse. */
  lemma EntryWeighted(t: string, w: string)
    requires ';' !in t && ';' !in w
    ensures ParseQ(w).Some? ==> ParseEntry(t + ";q=" + w) == (AcceptableEncoding(t, ParseQ(w).value), false)
    ensures ParseQ(w).None? ==> ParseEntry(t + ";q=" + w) == (AcceptableEncoding(t, DefaultQ), true)
  {
    var p := "q=" + w;
    assert ';' !in p by {
      assert forall i :: 0 <= i < |p| ==> p[i] != ';' by {
        forall i | 0 <= i < |p| ensures p[i] != ';' {
          if i >= 2 { assert p[i] == w[i - 2]; }
        }
      }
    }
    SplitJoin([t, p], ';');
    assert Join([t, p], ";") == t + ";q=" + w;
    assert HasPrefix(p, "q=") && p[2..] == w;
  }

  /** The entries that survive: parsed in order, kept when the token is
      allowed and the weight is positive. */
  function Candidates(entries: seq<string>, allowed: map<string, int>): (r: seq<AcceptableEncoding>)
    ensures |r| <= |entries|
    ensures forall k :: 0 <= k < |r| ==> r[k].encoding in allowed && r[k].q > 0
  {
    if |entries| == 0 then []
    else
      var c := Candidates(entries[..|entries| - 1], allowed);
      var acc := ParseEntry(entries[|entries| - 1]).0;
      if acc.encoding in allowed && acc.q > 0 then c + [acc] else c
  }

  /** The number of entries whose weight did not parse. */
  function QErrors(entries: seq<string>): nat
  {
    if |entries| == 0 then 0
    else QErrors(entries[..|entries| - 1]) + (if ParseEntry(entries[|entries| - 1]).1 then 1 else 0)
  }

  /** The survivors of a whole header; an empty header has none. */
  function Acceptable(header: string, allowed: map<string, int>): (r: seq<AcceptableEncoding>)
    ensures forall k :: 0 <= k < |r| ==> r[k].encoding in allowed && r[k].q > 0
  {
    var h := Normalize(header);
    if h == "" then [] else Candidates(Split(h, ','), allowed)
  }

  /** A survivor is exactly an entry of the header whose token is allowed
      and whose weight is positive: in particular `*`, tokens that are not
      allowed and `q=0` never survive. */
  lemma {:induction false} CandidatesMembership(entries: seq<string>, allowed: map<string, int>, a: AcceptableEncoding)
    ensures a in Candidates(entries, allowed) <==>
      a.encoding in allowed && a.q > 0 && exists i :: 0 <= i < |entries| && ParseEntry(entries[i]).0 == a
    decreases |entries|
  {
    if |entries| > 0 {
      var init := entries[..|entries| - 1];
      CandidatesMembership(init, allowed, a);
      if a.encoding in allowed && a.q > 0 && exists i :: 0 <= i < |entries| && ParseEntry(entries[i]).0 == a {
        var i :| 0 <= i < |entries| && ParseEntry(entries[i]).0 == a;
        if i < |entries| - 1 {
          assert init[i] == entries[i];
        }
      }
      if exists i :: 0 <= i < |init| && ParseEntry(init[i]).0 == a {
        var i :| 0 <= i < |init| && ParseEntry(init[i]).0 == a;
        assert entries[i] == init[i];
      }
    }
  }

  // -----------------------------------------------------------------------
  // Choosing

  /** The order the sort establishes: by weight, then by priority. */
  predicate Less(a: AcceptableEncoding, b: AcceptableEncoding, allowed: map<string, int>)
    requires a.encoding in allowed && b.encoding in allowed
  {
    if a.q == b.q then allowed[a.encoding] < allowed[b.encoding] else a.q < b.q
  }

  /** Survivor `i` has the highest weight, and the highest priority among
      those of that weight. */
  predicate IsBest(cs: seq<AcceptableEncoding>, i: int, allowed: map<string, int>)
    requires forall k :: 0 <= k < |cs| ==> cs[k].encoding in allowed
  {
    && 0 <= i < |cs|
    && forall k :: 0 <= k < |cs| ==>
         cs[k].q <= cs[i].q && (cs[k].q == cs[i].q ==> allowed[cs[k].encoding] <= allowed[cs[i].encoding])
  }

  /** selectAlgorithm: "" when no entry survives; otherwise the token of a
      best survivor (which of several equally good survivors is left open,
      as the sort is not stable). `errors` counts the weights that did not
      parse. */
  method SelectAlgorithm(acceptEncoding: string, allowed: map<string, int>) returns (algo: string, errors: nat)
    ensures Acceptable(acceptEncoding, allowed) == [] ==> algo == ""
    ensures Acceptable(acceptEncoding, allowed) != [] ==>
      exists i :: IsBest(Acceptable(acceptEncoding, allowed), i, allowed)
        && Acceptable(acceptEncoding, allowed)[i].encoding == algo
    ensures "" !in allowed ==> (algo == "" <==> Acceptable(acceptEncoding, allowed) == [])
    ensures errors == if Normalize(acceptEncoding) == "" then 0 else QErrors(Split(Normalize(acceptEncoding), ','))
  {
    var h := Normalize(acceptEncoding);
    if h == "" {
      return "", 0;
    }
    var acceptable;
    acceptable, errors := ParseEncodings(Split(h, ','), allowed);
    if |acceptable| == 0 {
      return "", errors;
    }
    var best := PickBest(acceptable, allowed);
    algo := acceptable[best].encoding;
  }

  /** The parsing loop of selectAlgorithm: the survivors of `encodings`,
      in order, and the number of weights that did not parse. */
  method ParseEncodings(encodings: seq<string>, allowed: map<string, int>) returns (acceptable: seq<AcceptableEncoding>, errors: nat)
    ensures acceptable == Candidates(encodings, allowed)
    ensures errors == QErrors(encodings)
  {
    acceptable := [];
    errors := 0;
    for i := 0 to |encodings|
      invariant acceptable == Candidates(encodings[..i], allowed)
      invariant errors == QErrors(encodings[..i])
    {
      assert encodings[..i + 1][..i] == encodings[..i];
      var r := ParseEntry(encodings[i]);
      if r.1 {
        errors := errors + 1;
      }
      if r.0.encoding in allowed && r.0.q > 0 {
        acceptable := acceptable + [r.0];
      }
    }
    assert encodings[..|encodings|] == encodings;
  }

  /** The sort followed by taking the last element: the index of a best
      survivor. */
  method PickBest(acceptable: seq<AcceptableEncoding>, allowed: map<string, int>) returns (best: nat)
    requires |acceptable| > 0
    requires forall k :: 0 <= k < |acceptable| ==> acceptable[k].encoding in allowed
    ensures IsBest(acceptable, best, allowed)
  {
    best := 0;
    for j := 1 to |acceptable|
      invariant 0 <= best < j
      invariant forall k :: 0 <= k < j ==> !Less(acceptable[best], acceptable[k], allowed)
    {
      if Less(acceptable[best], acceptable[j], allowed) {
        best := j;
      }
    }
  }

  /** The chosen token appeared in the header as an allowed entry with a
      positive weight. */
  lemma BestAppeared(header: string, allowed: map<string, int>, i: int)
    requires IsBest(Acceptable(header, allowed), i, allowed)
    ensures Normalize(header) != ""
    ensures exists j ::
      0 <= j < |Split(Normalize(header), ',')| && ParseEntry(Split(Normalize(header), ',')[j]).0 == Acceptable(header, allowed)[i]
    ensures Acceptable(header, allowed)[i].encoding in allowed && Acceptable(header, allowed)[i].q > 0
  {
    var es := Split(Normalize(header), ',');
    var a := Acceptable(header, allowed)[i];
    assert Acceptable(header, allowed) == Candidates(es, allowed);
    CandidatesMembership(es, allowed, a);
    var j :| 0 <= j < |es| && ParseEntry(es[j]).0 == a;
  }

  /** When the priorities of the allowed tokens are distinct, all best
      survivors carry the same token, so the choice is determined. */
  lemma BestUnique(cs: seq<AcceptableEncoding>, allowed: map<string, int>, i: int, j: int)
    requires forall k :: 0 <= k < |cs| ==> cs[k].encoding in allowed
    requires forall t, u :: t in allowed && u in allowed && t != u ==> allowed[t] != allowed[u]
    requires IsBest(cs, i, allowed) && IsBest(cs, j, allowed)
    ensures cs[i].encoding == cs[j].encoding
  {
    assert cs[i].q <= cs[j].q && cs[j].q <= cs[i].q;
  }
}
